/**
 Graphs in which following out-edges always ends: every vertex has at most one
 out-edge, and a `rank` map drops by exactly one along every edge (the depth of
 a vertex below the vertex its edges lead to). A breadth-first tree is such a
 graph, with its depth map as the rank. Here live the walk to the root, the
 in-descendants of a vertex, and sums of depths over sets of vertices.
 */
module Forests {
  import opened Graphs

  /** `rank` certifies that `t` is a forest whose edges point towards the roots. */
  ghost predicate Ranked<V(!new), E>(t: Graph<V, E>, rank: map<V, nat>) {
    && Valid(t)
    && rank.Keys == t.Keys
    && (forall v :: v in t ==> |t[v]| <= 1)
    && (forall u, w :: u in t && w in t[u] ==> rank[u] == rank[w] + 1)
  }

  lemma Singleton<T>(s: set<T>, x: T)
    requires |s| == 1 && x in s
    ensures s == {x}
  {
    assert |s - {x}| == 0;
  }

  /** The one vertex that `v`'s single out-edge leads to. */
  function Parent<V(!new), E>(t: Graph<V, E>, v: V): (p: V)
    requires v in t && |t[v]| == 1
    ensures t[v].Keys == {p}
  {
    var p :| p in t[v];
    Singleton(t[v].Keys, p);
    p
  }

  /** The walk from `v` along out-edges until a vertex with no out-edge: `v`
      first, each vertex followed by the one its edge leads to, ending at a
      root, as many edges long as the rank drops. */
  function PathToRoot<V(!new), E>(t: Graph<V, E>, v: V, ghost rank: map<V, nat>): (p: seq<V>)
    requires Ranked(t, rank) && v in t
    ensures |p| >= 1 && p[0] == v
    ensures forall i :: 0 <= i < |p| ==> p[i] in t
    ensures forall i :: 0 <= i < |p| - 1 ==> HasEdge(t, p[i], p[i + 1])
    ensures t[p[|p| - 1]] == map[]
    ensures |p| + rank[p[|p| - 1]] == rank[v] + 1
    decreases rank[v]
  {
    if OutDegree(t, v) == 0 then [v]
    else
      var w := Parent(t, v);
      var rest := PathToRoot(t, w, rank);
      PrependEdge(t, v, rank, rest);
      [v] + rest
  }

  /** Putting `v` in front of a root-bound walk from the vertex its edge
      leads to gives a root-bound walk from `v`. */
  lemma PrependEdge<V(!new), E>(t: Graph<V, E>, v: V, rank: map<V, nat>, rest: seq<V>)
    requires Ranked(t, rank) && v in t && |rest| >= 1 && HasEdge(t, v, rest[0])
    requires forall i :: 0 <= i < |rest| ==> rest[i] in t
    requires forall i :: 0 <= i < |rest| - 1 ==> HasEdge(t, rest[i], rest[i + 1])
    requires t[rest[|rest| - 1]] == map[]
    requires |rest| + rank[rest[|rest| - 1]] == rank[rest[0]] + 1
    ensures var p := [v] + rest;
      && (forall i :: 0 <= i < |p| ==> p[i] in t)
      && (forall i :: 0 <= i < |p| - 1 ==> HasEdge(t, p[i], p[i + 1]))
      && t[p[|p| - 1]] == map[]
      && |p| + rank[p[|p| - 1]] == rank[v] + 1
  {
    var p := [v] + rest;
    assert p[|p| - 1] == rest[|rest| - 1];
    forall i | 0 <= i < |p| - 1
      ensures HasEdge(t, p[i], p[i + 1])
    {
      if i > 0 {
        assert p[i] == rest[i - 1] && p[i + 1] == rest[i];
      }
    }
  }

  /** `p` is a walk from `v` along out-edges that ends at a vertex without one. */
  ghost predicate RootPath<V(!new), E>(t: Graph<V, E>, v: V, p: seq<V>) {
    && |p| >= 1 && p[0] == v
    && (forall i :: 0 <= i < |p| - 1 ==> HasEdge(t, p[i], p[i + 1]))
    && p[|p| - 1] in t && t[p[|p| - 1]] == map[]
  }

  /** Every suffix of a root path is the root path of its first vertex, and
      the rank drops by one per step. */
  lemma PathSuffix<V(!new), E>(t: Graph<V, E>, v: V, rank: map<V, nat>, j: nat)
    requires Ranked(t, rank) && v in t
    requires j < |PathToRoot(t, v, rank)|
    ensures var p := PathToRoot(t, v, rank);
      p[j..] == PathToRoot(t, p[j], rank) && rank[p[j]] + j == rank[v]
  {
    var p := PathToRoot(t, v, rank);
    RootPathDrop(t, v, p, j);
    PathUnique(t, p[j], rank, p[j..]);
    PathRank(t, v, rank, j);
  }

  /** Along a root path the rank drops by one per step. */
  lemma {:induction false} PathRank<V(!new), E>(t: Graph<V, E>, v: V, rank: map<V, nat>, i: nat)
    requires Ranked(t, rank) && v in t
    requires i < |PathToRoot(t, v, rank)|
    ensures rank[PathToRoot(t, v, rank)[i]] + i == rank[v]
    decreases i
  {
    if i > 0 {
      var w := Parent(t, v);
      assert PathToRoot(t, v, rank)[i] == PathToRoot(t, w, rank)[i - 1];
      PathRank(t, w, rank, i - 1);
    }
  }

  /** `PathToRoot` is a root path, and the only one: no other walk from `v`
      ends at a vertex without out-edges. */
  lemma RootPathIff<V(!new), E>(t: Graph<V, E>, v: V, rank: map<V, nat>, q: seq<V>)
    requires Ranked(t, rank) && v in t
    ensures RootPath(t, v, q) <==> q == PathToRoot(t, v, rank)
  {
    if RootPath(t, v, q) {
      PathUnique(t, v, rank, q);
    }
  }

  /** Dropping the first `j` vertices of a root path leaves the root path of
      the vertex it reaches. */
  lemma RootPathDrop<V(!new), E>(t: Graph<V, E>, v: V, q: seq<V>, j: nat)
    requires RootPath(t, v, q) && j < |q|
    ensures RootPath(t, q[j], q[j..])
  {
    var q' := q[j..];
    assert q'[|q'| - 1] == q[|q| - 1];
    forall i | 0 <= i < |q'| - 1
      ensures HasEdge(t, q'[i], q'[i + 1])
    {
      assert q'[i] == q[j + i] && q'[i + 1] == q[j + i + 1];
    }
  }

  /** The root path is the only walk from `v` that ends at a vertex without
      out-edges. */
  lemma {:induction false} PathUnique<V(!new), E>(t: Graph<V, E>, v: V, rank: map<V, nat>, q: seq<V>)
    requires Ranked(t, rank) && v in t && RootPath(t, v, q)
    ensures q == PathToRoot(t, v, rank)
    decreases |q|
  {
    if |q| > 1 {
      assert HasEdge(t, q[0], q[1]);
      Singleton(t[v].Keys, q[1]);
      RootPathDrop(t, v, q, 1);
      PathUnique(t, q[1], rank, q[1..]);
      assert q == [v] + q[1..];
    }
  }

  /** `x` lies on the walk from `v` to its root. Stated by recursion along
      the out-edges rather than through `PathToRoot`, so that membership in a
      subtree unfolds only as far as a proof asks. */
  ghost predicate OnPath<V(!new), E>(t: Graph<V, E>, rank: map<V, nat>, v: V, x: V)
    requires Ranked(t, rank) && v in t
    decreases rank[v]
  {
    v == x || exists p :: p in t[v] && OnPath(t, rank, p, x)
  }

  lemma {:induction false} OnPathIff<V(!new), E>(t: Graph<V, E>, rank: map<V, nat>, v: V, x: V)
    requires Ranked(t, rank) && v in t
    ensures OnPath(t, rank, v, x) <==> x in PathToRoot(t, v, rank)
    decreases rank[v]
  {
    if |t[v]| == 1 {
      var w := Parent(t, v);
      OnPathIff(t, rank, w, x);
      assert PathToRoot(t, v, rank) == [v] + PathToRoot(t, w, rank);
      assert OnPath(t, rank, v, x) <==> v == x || OnPath(t, rank, w, x);
    }
  }

  /** `x` and its in-descendants: the vertices whose root path passes `x`. */
  ghost function Subtree<V(!new), E>(t: Graph<V, E>, rank: map<V, nat>, x: V): set<V>
    requires Ranked(t, rank)
  {
    set v | v in t && OnPath(t, rank, v, x)
  }

  lemma InSubtree<V(!new), E>(t: Graph<V, E>, rank: map<V, nat>, x: V, v: V)
    requires Ranked(t, rank)
    ensures v in Subtree(t, rank, x) <==> v in t && x in PathToRoot(t, v, rank)
  {
    if v in t {
      OnPathIff(t, rank, v, x);
    }
  }

  /** The rank of `v`, and zero off the rank's domain: total, so that sums
      over a set need no precondition relating the set to the rank. */
  function Depth<V(!new)>(rank: map<V, nat>, v: V): nat {
    if v in rank then rank[v] else 0
  }

  /** The sum of `rank[v] + offset` over the vertices `v` of `s`. */
  ghost function DepthSum<V(!new)>(s: set<V>, rank: map<V, nat>, offset: int): int
    decreases s
  {
    if s == {} then 0
    else
      var v :| v in s;
      Depth(rank, v) + offset + DepthSum(s - {v}, rank, offset)
  }

  lemma {:induction false} DepthSumRemove<V(!new)>(s: set<V>, rank: map<V, nat>, offset: int, y: V)
    requires y in s
    ensures DepthSum(s, rank, offset) == Depth(rank, y) + offset + DepthSum(s - {y}, rank, offset)
    decreases s
  {
    var v :| v in s && DepthSum(s, rank, offset) == Depth(rank, v) + offset + DepthSum(s - {v}, rank, offset);
    if v != y {
      DepthSumRemove(s - {v}, rank, offset, y);
      DepthSumRemove(s - {y}, rank, offset, v);
      assert s - {v} - {y} == s - {y} - {v};
    }
  }

  lemma {:induction false} DepthSumUnion<V(!new)>(a: set<V>, b: set<V>, rank: map<V, nat>, offset: int)
    requires a !! b
    ensures DepthSum(a + b, rank, offset) == DepthSum(a, rank, offset) + DepthSum(b, rank, offset)
    decreases a
  {
    if a != {} {
      var y :| y in a;
      DepthSumRemove(a + b, rank, offset, y);
      DepthSumRemove(a, rank, offset, y);
      assert (a + b) - {y} == (a - {y}) + b;
      DepthSumUnion(a - {y}, b, rank, offset);
    } else {
      assert a + b == b;
    }
  }

  lemma DepthSumSingleton<V(!new)>(x: V, rank: map<V, nat>, offset: int)
    requires x in rank
    ensures DepthSum({x}, rank, offset) == rank[x] + offset
  {
    DepthSumRemove({x}, rank, offset, x);
    assert {x} - {x} == {};
  }

  lemma OwnSubtree<V(!new), E>(t: Graph<V, E>, rank: map<V, nat>, x: V)
    requires Ranked(t, rank) && x in t
    ensures x in Subtree(t, rank, x)
  {
  }

  /** The subtree of a child `w` of `x` (an in-neighbour) lies inside the
      subtree of `x` and misses `x`, one rank deeper. */
  lemma ChildSubtree<V(!new), E>(t: Graph<V, E>, rank: map<V, nat>, x: V, w: V)
    requires Ranked(t, rank) && x in t && HasEdge(t, w, x)
    ensures rank[w] == rank[x] + 1
    ensures Subtree(t, rank, w) <= Subtree(t, rank, x)
    ensures x !in Subtree(t, rank, w)
  {
    Singleton(t[w].Keys, x);
    var pw := PathToRoot(t, w, rank);
    assert pw[1] == x;
    forall v | v in Subtree(t, rank, w)
      ensures v in Subtree(t, rank, x)
    {
      InSubtree(t, rank, w, v);
      InSubtree(t, rank, x, v);
      var p := PathToRoot(t, v, rank);
      var i :| 0 <= i < |p| && p[i] == w;
      PathSuffix(t, v, rank, i);
      assert p[i + 1] == x;
    }
    InSubtree(t, rank, w, x);
    var px := PathToRoot(t, x, rank);
    forall i | 0 <= i < |px|
      ensures px[i] != w
    {
      PathRank(t, x, rank, i);
    }
  }

  /** Distinct children of one vertex have disjoint subtrees. */
  lemma SiblingsDisjoint<V(!new), E>(t: Graph<V, E>, rank: map<V, nat>, x: V, w1: V, w2: V)
    requires Ranked(t, rank) && HasEdge(t, w1, x) && HasEdge(t, w2, x) && w1 != w2
    ensures Subtree(t, rank, w1) !! Subtree(t, rank, w2)
  {
    assert rank[w1] == rank[x] + 1 == rank[w2];
    forall v | v in Subtree(t, rank, w1)
      ensures v !in Subtree(t, rank, w2)
    {
      InSubtree(t, rank, w1, v);
      InSubtree(t, rank, w2, v);
      var p := PathToRoot(t, v, rank);
      var i1 :| 0 <= i1 < |p| && p[i1] == w1;
      PathRank(t, v, rank, i1);
      forall i | 0 <= i < |p|
        ensures p[i] != w2
      {
        PathRank(t, v, rank, i);
        if i != i1 {
          assert rank[p[i]] != rank[w2];
        }
      }
    }
  }

  /** Every vertex of the subtree of `x` other than `x` lies in the subtree of
      some child of `x`. */
  lemma SubtreeSplits<V(!new), E>(t: Graph<V, E>, rank: map<V, nat>, x: V, v: V)
    requires Ranked(t, rank) && v in Subtree(t, rank, x) && v != x
    ensures exists w :: HasEdge(t, w, x) && v in Subtree(t, rank, w)
  {
    InSubtree(t, rank, x, v);
    var p := PathToRoot(t, v, rank);
    var i :| 0 <= i < |p| && p[i] == x;
    assert i > 0;
    assert HasEdge(t, p[i - 1], x);
    InSubtree(t, rank, p[i - 1], v);
    assert v in Subtree(t, rank, p[i - 1]);
  }

  /** `x` together with the subtrees of the children in `done`. */
  ghost function Covered<V(!new), E>(t: Graph<V, E>, rank: map<V, nat>, x: V, done: set<V>): set<V>
    requires Ranked(t, rank)
  {
    set v | v in t && (v == x || exists w :: w in done && v in Subtree(t, rank, w))
  }

  /** Before any child is done, the covered set is `x` alone. */
  lemma CoveredStart<V(!new), E>(t: Graph<V, E>, rank: map<V, nat>, x: V, offset: int)
    requires Ranked(t, rank) && x in t
    ensures DepthSum(Covered(t, rank, x, {}), rank, offset) == rank[x] + offset
  {
    assert Covered(t, rank, x, {}) == {x};
    DepthSumSingleton(x, rank, offset);
  }

  /** Adding one more child's subtree to the covered set adds a disjoint part. */
  lemma CoveredAdd<V(!new), E>(t: Graph<V, E>, rank: map<V, nat>, x: V, done: set<V>, w: V)
    requires Ranked(t, rank) && x in t
    requires forall c :: c in done ==> HasEdge(t, c, x)
    requires HasEdge(t, w, x) && w !in done
    ensures Covered(t, rank, x, done) !! Subtree(t, rank, w)
    ensures Covered(t, rank, x, done + {w}) == Covered(t, rank, x, done) + Subtree(t, rank, w)
  {
    ChildSubtree(t, rank, x, w);
    forall v | v in Covered(t, rank, x, done)
      ensures v !in Subtree(t, rank, w)
    {
      if v != x {
        var c :| c in done && v in Subtree(t, rank, c);
        SiblingsDisjoint(t, rank, x, c, w);
      }
    }
  }

  /** The depth sum over the covered set grows by the child's subtree sum. */
  lemma CoveredSum<V(!new), E>(t: Graph<V, E>, rank: map<V, nat>, x: V, done: set<V>, w: V, offset: int)
    requires Ranked(t, rank) && x in t
    requires forall c :: c in done ==> HasEdge(t, c, x)
    requires HasEdge(t, w, x) && w !in done
    ensures DepthSum(Covered(t, rank, x, done + {w}), rank, offset)
         == DepthSum(Covered(t, rank, x, done), rank, offset) + DepthSum(Subtree(t, rank, w), rank, offset)
  {
    CoveredAdd(t, rank, x, done, w);
    DepthSumUnion(Covered(t, rank, x, done), Subtree(t, rank, w), rank, offset);
  }

  /** A child's subtree is strictly smaller than its parent's. */
  lemma ChildSmaller<V(!new), E>(t: Graph<V, E>, rank: map<V, nat>, x: V, w: V)
    requires Ranked(t, rank) && x in t && HasEdge(t, w, x)
    ensures Subtree(t, rank, w) < Subtree(t, rank, x)
  {
    ChildSubtree(t, rank, x, w);
    OwnSubtree(t, rank, x);
  }

  /** The same, counted: the measure on which the recursive sums terminate. */
  lemma ChildFewer<V(!new), E>(t: Graph<V, E>, rank: map<V, nat>, x: V, w: V)
    requires Ranked(t, rank) && x in t && HasEdge(t, w, x)
    ensures |Subtree(t, rank, w)| < |Subtree(t, rank, x)|
  {
    ChildSmaller(t, rank, x, w);
    StrictSubsetSmaller(Subtree(t, rank, w), Subtree(t, rank, x));
  }

  lemma StrictSubsetSmaller<T>(a: set<T>, b: set<T>)
    requires a < b
    ensures |a| < |b|
  {
    assert b == a + (b - a);
    assert b - a != {} by {
      assert (b - a == {}) ==> b <= a;
    }
  }

  /** Once every child is done, the covered set is the whole subtree. */
  lemma CoveredAll<V(!new), E>(t: Graph<V, E>, rank: map<V, nat>, x: V, done: set<V>, offset: int)
    requires Ranked(t, rank) && x in t
    requires forall c :: c in done <==> HasEdge(t, c, x)
    ensures DepthSum(Covered(t, rank, x, done), rank, offset) == DepthSum(Subtree(t, rank, x), rank, offset)
  {
    forall v | v in Subtree(t, rank, x)
      ensures v in Covered(t, rank, x, done)
    {
      if v != x {
        SubtreeSplits(t, rank, x, v);
      }
    }
    forall v | v in Covered(t, rank, x, done)
      ensures v in Subtree(t, rank, x)
    {
      if v == x {
        OwnSubtree(t, rank, x);
      } else {
        var c :| c in done && v in Subtree(t, rank, c);
        ChildSubtree(t, rank, x, c);
      }
    }
    assert Covered(t, rank, x, done) == Subtree(t, rank, x);
  }

  /** In a one-vertex forest the subtree of the vertex is the vertex alone, at
      depth zero below itself. */
  lemma SingleVertexSum<V(!new), E>(t: Graph<V, E>, rank: map<V, nat>, x: V, offset: int)
    requires Ranked(t, rank) && |t| == 1 && x in t && offset == -(rank[x] as int)
    ensures DepthSum(Subtree(t, rank, x), rank, offset) == 0
  {
    Singleton(t.Keys, x);
    OwnSubtree(t, rank, x);
    assert Subtree(t, rank, x) == {x};
    DepthSumSingleton(x, rank, offset);
  }

  /** The separation sum computed the way the tree is walked: `x` itself,
      then the sums of its children's subtrees. Every vertex `v` counts
      `rank[v] + offset`, so with `offset == height - rank[x]` the vertex `x`
      counts `height` and each level below it one more. */
  ghost function SubtreeSum<V(!new), E>(t: Graph<V, E>, rank: map<V, nat>, x: V, offset: int): int
    requires Ranked(t, rank) && x in t
    decreases |Subtree(t, rank, x)|, 1
  {
    rank[x] + offset + ChildrenSum(t, rank, x, InNeighbors(t, x), offset)
  }

  /** The sum of `SubtreeSum` over some children `cs` of `x`. */
  ghost function ChildrenSum<V(!new), E>(t: Graph<V, E>, rank: map<V, nat>, x: V, cs: set<V>, offset: int): int
    requires Ranked(t, rank) && x in t && forall c :: c in cs ==> HasEdge(t, c, x)
    decreases |Subtree(t, rank, x)|, 0, cs
  {
    if cs == {} then 0
    else
      var c :| c in cs;
      ChildFewer(t, rank, x, c);
      SubtreeSum(t, rank, c, offset) + ChildrenSum(t, rank, x, cs - {c}, offset)
  }

  /** Summing the children one at a time: `total` plus what is left of `rest`
      stays the sum over all of `cs`. */
  lemma ChildrenSumStep<V(!new), E>(t: Graph<V, E>, rank: map<V, nat>, x: V, cs: set<V>, rest: set<V>,
                                    offset: int, total: int, w: V, sub: int)
    requires Ranked(t, rank) && x in t && forall c :: c in rest ==> HasEdge(t, c, x)
    requires forall c :: c in cs ==> HasEdge(t, c, x)
    requires total + ChildrenSum(t, rank, x, rest, offset) == ChildrenSum(t, rank, x, cs, offset)
    requires w in rest && sub == SubtreeSum(t, rank, w, offset)
    ensures total + sub + ChildrenSum(t, rank, x, rest - {w}, offset) == ChildrenSum(t, rank, x, cs, offset)
  {
    ChildrenSumRemove(t, rank, x, rest, offset, w);
  }

  /** A child of `x` is one level deeper: the offset that gives `x` the height
      `height - 1` gives the child `height`. */
  lemma ChildOffset<V(!new), E>(t: Graph<V, E>, rank: map<V, nat>, x: V, w: V, height: int, offset: int)
    requires Ranked(t, rank) && HasEdge(t, w, x) && offset == height - 1 - rank[x]
    ensures height - rank[w] == offset
  {
  }

  lemma ChildrenSumDone<V(!new), E>(t: Graph<V, E>, rank: map<V, nat>, x: V, cs: set<V>, rest: set<V>,
                                    offset: int, total: int)
    requires Ranked(t, rank) && x in t && rest == {}
    requires forall c :: c in cs ==> HasEdge(t, c, x)
    requires total + ChildrenSum(t, rank, x, rest, offset) == ChildrenSum(t, rank, x, cs, offset)
    ensures total == ChildrenSum(t, rank, x, cs, offset)
  {
  }

  /** The children's sums may be taken in any order. */
  lemma {:induction false} ChildrenSumRemove<V(!new), E>(t: Graph<V, E>, rank: map<V, nat>, x: V, cs: set<V>,
                                                        offset: int, y: V)
    requires Ranked(t, rank) && x in t && forall c :: c in cs ==> HasEdge(t, c, x)
    requires y in cs
    ensures ChildrenSum(t, rank, x, cs, offset)
         == SubtreeSum(t, rank, y, offset) + ChildrenSum(t, rank, x, cs - {y}, offset)
    decreases cs
  {
    var c :| c in cs && ChildrenSum(t, rank, x, cs, offset)
                    == SubtreeSum(t, rank, c, offset) + ChildrenSum(t, rank, x, cs - {c}, offset);
    if c != y {
      ChildrenSumRemove(t, rank, x, cs - {c}, offset, y);
      ChildrenSumRemove(t, rank, x, cs - {y}, offset, c);
      assert cs - {c} - {y} == cs - {y} - {c};
    }
  }

  /** The recursive sum is the depth sum over the subtree. */
  lemma {:induction false} SubtreeSumIsDepthSum<V(!new), E>(t: Graph<V, E>, rank: map<V, nat>, x: V, offset: int)
    requires Ranked(t, rank) && x in t
    ensures SubtreeSum(t, rank, x, offset) == DepthSum(Subtree(t, rank, x), rank, offset)
    decreases |Subtree(t, rank, x)|, 1
  {
    var cs := InNeighbors(t, x);
    ChildrenSumIsCovered(t, rank, x, cs, offset);
    CoveredAll(t, rank, x, cs, offset);
  }

  lemma {:induction false} ChildrenSumIsCovered<V(!new), E>(t: Graph<V, E>, rank: map<V, nat>, x: V, cs: set<V>,
                                                           offset: int)
    requires Ranked(t, rank) && x in t && forall c :: c in cs ==> HasEdge(t, c, x)
    ensures rank[x] + offset + ChildrenSum(t, rank, x, cs, offset) == DepthSum(Covered(t, rank, x, cs), rank, offset)
    decreases |Subtree(t, rank, x)|, 0, cs
  {
    if cs == {} {
      CoveredStart(t, rank, x, offset);
    } else {
      var c :| c in cs;
      var rest := cs - {c};
      ChildFewer(t, rank, x, c);
      ChildrenSumRemove(t, rank, x, cs, offset, c);
      ChildrenSumIsCovered(t, rank, x, rest, offset);
      SubtreeSumIsDepthSum(t, rank, c, offset);
      CoveredSum(t, rank, x, rest, c, offset);
      assert rest + {c} == cs;
    }
  }
}
