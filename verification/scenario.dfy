/**
 The hand-drawn seven-actor example: five actors connected to Kevin Bacon
 through shared movies, and two actors who only know each other. The example
 builds the graph, takes Kevin Bacon's shortest-path tree, the paths from
 Dartmouth, Charlie and Alice back to him, the vertices the tree misses and the
 average separation.
 */
module Scenario {
  import opened Graphs
  import opened Reachability
  import opened Forests
  import opened GraphLibrary

  /** The seven actors of the example; they stand for the seven distinct
      name strings "Alice", "Bob", "Charlie", "Dartmouth", "Kevin Bacon",
      "Nobody" and "Nobody's Friend". */
  datatype Name = Alice | Bob | Charlie | Dartmouth | Kevin | Nobody | Friend

  type Label = set<string>

  /** The neighbours of each actor in the drawing: who shares a movie with
      whom. */
  function Neighbours(v: Name): set<Name> {
    match v
    case Alice => {Bob, Kevin, Charlie}
    case Bob => {Alice, Kevin, Charlie}
    case Charlie => {Alice, Bob, Dartmouth}
    case Dartmouth => {Charlie}
    case Kevin => {Bob, Alice}
    case Nobody => {Friend}
    case Friend => {Nobody}
  }

  /** `g` is the drawing: every actor is a vertex, with its drawn neighbours
      as its out-neighbours. */
  ghost predicate Picture(g: Graph<Name, Label>) {
    forall v: Name :: v in g && g[v].Keys == Neighbours(v)
  }

  /** The actors Kevin Bacon is connected to, himself included. */
  const Connected: set<Name> := {Kevin, Bob, Alice, Charlie, Dartmouth}

  // Building the drawing. A ghost adjacency map records, after every
  // insertion, each vertex's out-neighbours.

  /** `g` has the vertices of `adj`, each with the out-neighbours `adj` gives. */
  ghost predicate Drawn<V(!new), E>(g: Graph<V, E>, adj: map<V, set<V>>) {
    g.Keys == adj.Keys && forall v :: v in g ==> g[v].Keys == adj[v]
  }

  /** `InsertVertex`: a new vertex comes without neighbours, and a vertex
      already present is left as it is. */
  method AddVertex<V(!new), E>(g: Graph<V, E>, v: V) returns (r: Graph<V, E>)
    ensures v in g ==> r == g
    ensures v !in g ==> r == g[v := map[]]
  {
    r := InsertVertex(g, v);
  }

  /** `InsertUndirected` on two vertices, followed on the adjacency: it always
      succeeds, and adds `b` to the out-neighbours of `a` and `a` to those of
      `b`. */
  method AddEdge<V(!new), E>(g: Graph<V, E>, a: V, b: V, e: E, ghost adj: map<V, set<V>>) returns (r: Graph<V, E>)
    requires Drawn(g, adj) && a in g && b in g
    ensures Drawn(r, adj[a := adj[a] + {b}][b := adj[b] + {a}])
  {
    var step := InsertUndirected(g, a, b, e);
    r := step.value;
  }

  /** The adjacency after the example's insertions, in their order. */
  ghost function Drawing(): map<Name, set<Name>> {
    var d0: map<Name, set<Name>> := map[Alice := {}, Charlie := {}, Bob := {}, Kevin := {}, Dartmouth := {}, Nobody := {}, Friend := {}];
    var d1 := d0[Bob := d0[Bob] + {Alice}][Alice := d0[Alice] + {Bob}];
    var d2 := d1[Bob := d1[Bob] + {Kevin}][Kevin := d1[Kevin] + {Bob}];
    var d3 := d2[Kevin := d2[Kevin] + {Alice}][Alice := d2[Alice] + {Kevin}];
    var d4 := d3[Charlie := d3[Charlie] + {Alice}][Alice := d3[Alice] + {Charlie}];
    var d5 := d4[Bob := d4[Bob] + {Charlie}][Charlie := d4[Charlie] + {Bob}];
    var d6 := d5[Dartmouth := d5[Dartmouth] + {Charlie}][Charlie := d5[Charlie] + {Dartmouth}];
    d6[Nobody := d6[Nobody] + {Friend}][Friend := d6[Friend] + {Nobody}]
  }

  /** The insertions draw the picture. */
  lemma DrawingIsPicture(g: Graph<Name, Label>)
    requires Drawn(g, Drawing())
    ensures Picture(g)
  {
    var d := Drawing();
    assert d[Alice] == Neighbours(Alice);
    assert d[Bob] == Neighbours(Bob);
    assert d[Charlie] == Neighbours(Charlie);
    assert d[Dartmouth] == Neighbours(Dartmouth);
    assert d[Kevin] == Neighbours(Kevin);
    assert d[Nobody] == Neighbours(Nobody);
    assert d[Friend] == Neighbours(Friend);
    forall v: Name
      ensures v in g && g[v].Keys == Neighbours(v)
    {
      match v
      case Alice =>
      case Bob =>
      case Charlie =>
      case Dartmouth =>
      case Kevin =>
      case Nobody =>
      case Friend =>
    }
  }

  /** The example's seven vertices, inserted without edges. */
  method TestActors() returns (g: Graph<Name, Label>)
    ensures g == map[Alice := map[], Charlie := map[], Bob := map[], Kevin := map[], Dartmouth := map[], Nobody := map[], Friend := map[]]
  {
    g := map[];
    g := AddVertex(g, Alice);
    g := AddVertex(g, Charlie);
    g := AddVertex(g, Bob);
    g := AddVertex(g, Kevin);
    g := AddVertex(g, Dartmouth);
    g := AddVertex(g, Nobody);
    g := AddVertex(g, Friend);
  }

  /** Before any edge is inserted, every actor has no neighbours. */
  lemma ActorsDrawn(g: Graph<Name, Label>)
    requires g == map[Alice := map[], Charlie := map[], Bob := map[], Kevin := map[], Dartmouth := map[], Nobody := map[], Friend := map[]]
    ensures Drawn(g, map[Alice := {}, Charlie := {}, Bob := {}, Kevin := {}, Dartmouth := {}, Nobody := {}, Friend := {}])
  {
  }

  /** The example's graph: the seven vertices, then the seven undirected
      edges, each labelled with the movies the two actors share. */
  method TestGraph() returns (g: Graph<Name, Label>)
    ensures Picture(g)
  {
    g := TestActors();
    ActorsDrawn(g);
    ghost var adj: map<Name, set<Name>> := map[Alice := {}, Charlie := {}, Bob := {}, Kevin := {}, Dartmouth := {}, Nobody := {}, Friend := {}];
    g := AddEdge(g, Bob, Alice, {"Movie A"}, adj);
    adj := adj[Bob := adj[Bob] + {Alice}][Alice := adj[Alice] + {Bob}];
    g := AddEdge(g, Bob, Kevin, {"Movie A"}, adj);
    adj := adj[Bob := adj[Bob] + {Kevin}][Kevin := adj[Kevin] + {Bob}];
    g := AddEdge(g, Kevin, Alice, {"Movie A", "Movie E"}, adj);
    adj := adj[Kevin := adj[Kevin] + {Alice}][Alice := adj[Alice] + {Kevin}];
    g := AddEdge(g, Charlie, Alice, {"Movie D"}, adj);
    adj := adj[Charlie := adj[Charlie] + {Alice}][Alice := adj[Alice] + {Charlie}];
    g := AddEdge(g, Bob, Charlie, {"Movie C"}, adj);
    adj := adj[Bob := adj[Bob] + {Charlie}][Charlie := adj[Charlie] + {Bob}];
    g := AddEdge(g, Dartmouth, Charlie, {"Movie B"}, adj);
    adj := adj[Dartmouth := adj[Dartmouth] + {Charlie}][Charlie := adj[Charlie] + {Dartmouth}];
    g := AddEdge(g, Nobody, Friend, {"Movie F"}, adj);
    adj := adj[Nobody := adj[Nobody] + {Friend}][Friend := adj[Friend] + {Nobody}];
    DrawingIsPicture(g);
  }

  /** The drawing is an undirected graph whose edges join its vertices. */
  lemma PictureSymmetric(g: Graph<Name, Label>)
    requires Picture(g)
    ensures Valid(g) && Symmetric(g)
  {
    forall u, w | u in g && w in g[u]
      ensures w in g && u in g[w]
    {
      assert w in Neighbours(u);
      assert u in Neighbours(w) by {
        match u
        case Alice =>
        case Bob =>
        case Charlie =>
        case Dartmouth =>
        case Kevin =>
        case Nobody =>
        case Friend =>
      }
    }
  }

  /** One step in the drawing leads from a vertex of `s` to one of its drawn
      neighbours. */
  lemma StepOfPicture(g: Graph<Name, Label>, s: set<Name>, w: Name)
    requires Picture(g)
    ensures w in Step(g, s) <==> exists u :: u in s && w in Neighbours(u)
  {
    if exists u :: u in s && w in Neighbours(u) {
      var u :| u in s && w in Neighbours(u);
      assert u in g && w in g[u];
    }
  }

  /** The actors at most `k` steps from Kevin Bacon in the drawing. */
  function Ball(k: nat): set<Name> {
    if k == 0 then {Kevin}
    else if k == 1 then {Kevin, Bob, Alice}
    else if k == 2 then {Kevin, Bob, Alice, Charlie}
    else Connected
  }

  /** One more step from the actors within `k` steps reaches the actors
      within `k + 1`. */
  lemma BallStep(g: Graph<Name, Label>, k: nat)
    requires Picture(g)
    ensures Ball(k) + Step(g, Ball(k)) == Ball(k + 1)
  {
    var prev := Ball(k);
    forall w
      ensures w in prev + Step(g, prev) <==> w in Ball(k + 1)
    {
      StepOfPicture(g, prev, w);
      if w == Bob || w == Alice {
        assert Kevin in prev && w in Neighbours(Kevin);
      } else if w == Charlie && k >= 1 {
        assert Alice in prev && w in Neighbours(Alice);
      } else if w == Dartmouth && k >= 2 {
        assert Charlie in prev && w in Neighbours(Charlie);
      }
    }
  }

  /** The breadth-first levels of the drawing around Kevin Bacon. */
  lemma {:induction false} WithinPicture(g: Graph<Name, Label>, k: nat)
    requires Picture(g)
    ensures Within(g, Kevin, k) == Ball(k)
    decreases k
  {
    if k > 0 {
      WithinPicture(g, k - 1);
      BallStep(g, k - 1);
    }
  }

  /** Each connected actor's Bacon number in the drawing. */
  function BaconNumber(v: Name): nat
    requires v in Connected
  {
    if v == Kevin then 0
    else if v == Bob || v == Alice then 1
    else if v == Charlie then 2
    else 3
  }

  /** The actors within `k` steps are those whose Bacon number is at most `k`. */
  lemma BallByNumber(v: Name, k: nat)
    ensures v in Ball(k) <==> v in Connected && BaconNumber(v) <= k
  {
  }

  lemma InWithin(g: Graph<Name, Label>, v: Name, k: nat)
    requires Picture(g)
    ensures v in Within(g, Kevin, k) <==> v in Connected && BaconNumber(v) <= k
  {
    WithinPicture(g, k);
    BallByNumber(v, k);
  }

  /** The breadth-first distances in the drawing are the Bacon numbers, and
      only the connected actors have one. */
  lemma DistancesOfPicture(g: Graph<Name, Label>, v: Name, d: nat)
    requires Picture(g)
    ensures IsDistance(g, Kevin, v, d) <==> v in Connected && d == BaconNumber(v)
  {
    InWithin(g, v, d);
    if d > 0 {
      InWithin(g, v, d - 1);
    }
  }

  /** Exactly the connected actors are reachable from Kevin Bacon. */
  lemma ReachableInPicture(g: Graph<Name, Label>, v: Name)
    requires Picture(g)
    ensures Reachable(g, Kevin, v) <==> v in Connected
  {
    if v in Connected {
      WithinPicture(g, 3);
      assert v in Within(g, Kevin, 3);
    }
    if Reachable(g, Kevin, v) {
      var k: nat :| v in Within(g, Kevin, k);
      WithinPicture(g, k);
    }
  }

  /** Kevin Bacon's shortest-path tree of the drawing holds the connected
      actors, each at its Bacon number. */
  lemma TreeOfPicture(g: Graph<Name, Label>, t: Graph<Name, Label>, dist: map<Name, nat>)
    requires Picture(g) && ShortestPathTree(g, Kevin, t, dist)
    ensures t.Keys == Connected && Ranked(t, dist)
    ensures forall v :: v in t ==> dist[v] == BaconNumber(v)
  {
    forall v
      ensures v in t <==> v in Connected
    {
      ReachableInPicture(g, v);
    }
    BfsTreeRanked(g, Kevin, t, dist);
    forall v | v in t
      ensures dist[v] == BaconNumber(v)
    {
      assert IsDistance(g, Kevin, v, dist[v]);
      DistancesOfPicture(g, v, dist[v]);
    }
  }

  /** A root path in Kevin Bacon's shortest-path tree of the drawing starts at
      `v`, has one vertex more than `v`'s Bacon number, and every step goes to
      an actor whose Bacon number is one less. */
  lemma PathInPicture(g: Graph<Name, Label>, t: Graph<Name, Label>, dist: map<Name, nat>, v: Name, p: seq<Name>)
    requires Picture(g) && ShortestPathTree(g, Kevin, t, dist)
    requires RootPath(t, v, p)
    ensures v in Connected && |p| == BaconNumber(v) + 1
    ensures forall i :: 0 <= i < |p| ==> p[i] in Connected && BaconNumber(p[i]) + i == BaconNumber(v)
  {
    TreeOfPicture(g, t, dist);
    assert v in t by {
      if |p| > 1 {
        assert HasEdge(t, p[0], p[1]);
      }
    }
    RootPathIff(t, v, dist, p);
    BfsPath(g, Kevin, t, dist, v);
    forall i | 0 <= i < |p|
      ensures p[i] in Connected && BaconNumber(p[i]) + i == BaconNumber(v)
    {
      PathRank(t, v, dist, i);
    }
  }

  /** The Bacon numbers of the connected actors add up to seven. */
  lemma NumbersAddUp<E>(t: Graph<Name, E>, dist: map<Name, nat>)
    requires t.Keys == Connected
    requires forall v :: v in t ==> v in dist && dist[v] == BaconNumber(v)
    ensures DepthSum(t.Keys, dist, 0) == 7
  {
    var s := t.Keys;
    DepthSumRemove(s, dist, 0, Dartmouth);
    DepthSumRemove(s - {Dartmouth}, dist, 0, Charlie);
    DepthSumRemove(s - {Dartmouth} - {Charlie}, dist, 0, Alice);
    DepthSumRemove(s - {Dartmouth} - {Charlie} - {Alice}, dist, 0, Bob);
    assert s - {Dartmouth} - {Charlie} - {Alice} - {Bob} == {Kevin};
    DepthSumSingleton(Kevin, dist, 0);
  }

  /** In Kevin Bacon's tree of the drawing the depths below him add up to
      seven. */
  lemma SeparationSum(g: Graph<Name, Label>, t: Graph<Name, Label>, dist: map<Name, nat>)
    requires Picture(g) && ShortestPathTree(g, Kevin, t, dist)
    ensures Ranked(t, dist) && Kevin in t
    ensures DepthSum(Subtree(t, dist, Kevin), dist, -(dist[Kevin] as int)) == 7
  {
    BfsSeparation(g, Kevin, t, dist);
    TreeDepthsAddUp(g, t, dist);
  }

  lemma TreeDepthsAddUp(g: Graph<Name, Label>, t: Graph<Name, Label>, dist: map<Name, nat>)
    requires Picture(g) && ShortestPathTree(g, Kevin, t, dist)
    ensures DepthSum(t.Keys, dist, 0) == 7
  {
    TreeOfPicture(g, t, dist);
    NumbersAddUp(t, dist);
  }

  /** Five actors are connected to Kevin Bacon. */
  lemma FiveConnected<E>(t: Graph<Name, E>)
    requires t.Keys == Connected
    ensures |t| == 5
  {
    assert |t.Keys| == |t|;
  }

  /** The average separation from Kevin Bacon in his tree of the drawing is
      seven steps over five actors. */
  lemma SeparationOfPicture(g: Graph<Name, Label>, t: Graph<Name, Label>, dist: map<Name, nat>)
    requires Picture(g) && ShortestPathTree(g, Kevin, t, dist)
    ensures Ranked(t, dist) && Kevin in t
    ensures DepthSum(Subtree(t, dist, Kevin), dist, -(dist[Kevin] as int)) as real / |t| as real == 7.0 / 5.0
  {
    TreeOfPicture(g, t, dist);
    SeparationSum(g, t, dist);
    FiveConnected(t);
    SevenOverFive(DepthSum(Subtree(t, dist, Kevin), dist, -(dist[Kevin] as int)), |t|);
  }

  lemma SevenOverFive(total: int, count: int)
    requires total == 7 && count == 5
    ensures total as real / count as real == 7.0 / 5.0
  {
  }

  /** Dartmouth's path back to Kevin Bacon goes through Charlie and then
      through Bob or Alice, whichever revealed Charlie first. */
  lemma DartmouthPath(g: Graph<Name, Label>, t: Graph<Name, Label>, dist: map<Name, nat>, p: seq<Name>)
    requires Picture(g) && ShortestPathTree(g, Kevin, t, dist) && RootPath(t, Dartmouth, p)
    ensures |p| == 4 && p[0] == Dartmouth && p[1] == Charlie && p[2] in {Bob, Alice} && p[3] == Kevin
  {
    PathInPicture(g, t, dist, Dartmouth, p);
    assert BaconNumber(p[1]) == 2 && BaconNumber(p[2]) == 1 && BaconNumber(p[3]) == 0;
  }

  /** Charlie's path back to Kevin Bacon goes through Bob or Alice. */
  lemma CharliePath(g: Graph<Name, Label>, t: Graph<Name, Label>, dist: map<Name, nat>, p: seq<Name>)
    requires Picture(g) && ShortestPathTree(g, Kevin, t, dist) && RootPath(t, Charlie, p)
    ensures |p| == 3 && p[0] == Charlie && p[1] in {Bob, Alice} && p[2] == Kevin
  {
    PathInPicture(g, t, dist, Charlie, p);
    assert BaconNumber(p[1]) == 1 && BaconNumber(p[2]) == 0;
  }

  /** Alice co-starred with Kevin Bacon. */
  lemma AlicePath(g: Graph<Name, Label>, t: Graph<Name, Label>, dist: map<Name, nat>, p: seq<Name>)
    requires Picture(g) && ShortestPathTree(g, Kevin, t, dist) && RootPath(t, Alice, p)
    ensures p == [Alice, Kevin]
  {
    PathInPicture(g, t, dist, Alice, p);
    assert BaconNumber(p[1]) == 0;
  }

  /** Nobody and Nobody's Friend are the actors the tree misses. */
  lemma MissingOfPicture<E>(g: Graph<Name, Label>, t: Graph<Name, E>)
    requires Picture(g) && t.Keys == Connected
    ensures g.Keys - t.Keys == {Nobody, Friend}
  {
    forall v: Name
      ensures v in g.Keys - t.Keys <==> v in {Nobody, Friend}
    {
      assert v in g;
    }
  }

  /** The example: build the drawing, take Kevin Bacon's shortest-path tree,
      the paths back to him from Dartmouth, Charlie and Alice, the actors the
      tree misses and the average separation. */
  method Test1() returns (tree: Graph<Name, Label>, fromDartmouth: seq<Name>, fromCharlie: seq<Name>,
                          fromAlice: seq<Name>, missing: set<Name>, separation: real)
    ensures tree.Keys == Connected
    ensures |fromDartmouth| == 4 && fromDartmouth[0] == Dartmouth && fromDartmouth[1] == Charlie
    ensures fromDartmouth[2] in {Bob, Alice} && fromDartmouth[3] == Kevin
    ensures |fromCharlie| == 3 && fromCharlie[0] == Charlie && fromCharlie[1] in {Bob, Alice} && fromCharlie[2] == Kevin
    ensures fromAlice == [Alice, Kevin]
    ensures missing == {Nobody, Friend}
    ensures separation == 7.0 / 5.0
  {
    var g := TestGraph();
    PictureSymmetric(g);
    var bfs;
    ghost var dist;
    bfs, dist := Bfs(g, Kevin);
    tree := bfs.value;
    TreeOfPicture(g, tree, dist);
    fromDartmouth := GetPath(tree, Dartmouth, dist).value;
    DartmouthPath(g, tree, dist, fromDartmouth);
    fromCharlie := GetPath(tree, Charlie, dist).value;
    CharliePath(g, tree, dist, fromCharlie);
    fromAlice := GetPath(tree, Alice, dist).value;
    AlicePath(g, tree, dist, fromAlice);
    missing := MissingVertices(g, tree);
    MissingOfPicture(g, tree);
    SeparationOfPicture(g, tree, dist);
    separation := AverageFromKevin(tree, dist);
  }

  /** `AverageSeparation` from Kevin Bacon, on a tree whose depths below him
      average seven over five. */
  method AverageFromKevin(tree: Graph<Name, Label>, ghost dist: map<Name, nat>) returns (separation: real)
    requires Ranked(tree, dist) && Kevin in tree
    requires DepthSum(Subtree(tree, dist, Kevin), dist, -(dist[Kevin] as int)) as real / |tree| as real == 7.0 / 5.0
    ensures separation == 7.0 / 5.0
  {
    var average := AverageSeparation(tree, Kevin, dist);
    separation := average.value;
  }
}
