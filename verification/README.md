# Kevin Bacon game: graph library and collaboration graph

The Kevin Bacon game links two actors through movies they both appeared in.
An actor's Bacon number is the fewest links from that actor to a chosen
centre of the universe. This project models the part of the program that
answers that question.

- **The collaboration graph.** Every actor is a vertex. Two actors who share
  a movie are joined by an undirected edge, and the edge's label is the set
  of every movie they share.
- **Breadth-first search.** From the centre, the search builds a
  shortest-path tree. Every reached actor points back one step towards the
  centre.
- **The tree queries.**
  - the path from an actor back to the centre;
  - the actors the tree misses (those not connected to the centre);
  - the average separation, which is the mean depth of the tree;
  - the actors at exactly `k` steps;
  - the actors sorted by in-degree.
- **The small test.** For the hand-drawn seven-actor graph, every
  expectation of the test is proved.

Modules:

- `Graphs` (graph.dfy): the labelled directed graph the library is written
  against. It is a map from each vertex to its out-edges, with the error
  cases of the graph interface as `Failure` results.
- `Reachability` (reach.dfy): the reference definitions, independent of any
  traversal.
  - `Within(g, s, k)`: the vertices at most `k` edges from `s`;
  - breadth-first distance (`IsDistance`);
  - `Reachable`;
  - walks, and the proof that the level sets agree with walks.
- `Forests` (forest.dfy): graphs where every vertex has at most one
  out-edge, certified by a `rank` map that drops by one along each edge.
  It covers:
  - the root path;
  - the subtree (in-descendants) of a vertex;
  - sums of depths over sets of vertices;
  - the facts that relate the recursive subtree sum to the set-based sum,
    and the covered set: a vertex together with the subtrees of the
    in-neighbours handled so far.
- `GraphLibrary` (graph_library.dfy): `bfs`, `getPath`,
  `missingVertices`, `averageSeparation` and its recursive helper.
- `Collaboration` (collaboration.dfy): the core of `createGraph`.
  1. The credits are grouped by movie.
  2. Every named actor becomes a vertex.
  3. The casts are joined pairwise, and a movie is added to the label of an
     edge that already exists.
- `KevinBacon` (kevin_bacon.dfy): `numberActors` and `degreesort`.
- `Scenario` (scenario.dfy): `test1`. The seven-vertex graph is built step
  by step, and the model proves what the test expects:
  - the tree from Kevin Bacon;
  - the three paths;
  - the two missing vertices;
  - the average separation, 7/5.

The Java methods throw or misbehave in some situations. The model returns a
`Failure` for each:

- **Unknown vertex.** `bfs` from a source that is not a vertex, `getPath`
  of a vertex not in the tree, an edge between names that are not vertices,
  and `averageSeparation` of an absent root all return
  `Failure(UnknownVertex)`.
- **Missing reverse edge.** Where `bfs` would read the label of an edge
  that does not exist, the model returns `Failure(NoSuchEdge)`. That can
  only happen in a graph that is not symmetric.

`HashMap` and `HashSet` iterate in an unspecified order. The model picks the
next element with `:|`, so every contract holds for every iteration order.

## Model

| member | source | states |
|---|---|---|
| Graphs.InsertVertex | KevinBacon.java:125 | adds the vertex with no edges; a vertex already present is left as it is, and every other vertex keeps its edges |
| Graphs.InsertDirected | GraphLibrary.java:39 | fails exactly when an endpoint is not a vertex; otherwise sets the one edge to the given label and keeps every other edge and the vertex set |
| Graphs.InsertUndirected | KevinBacon.java:143 | adds both directions of an edge under one label; leaves every other edge untouched; fails exactly when an endpoint is not a vertex |
| Graphs.GetLabel | GraphLibrary.java:39 | returns the label exactly when the edge exists; otherwise reports whether the source vertex or the edge was missing |
| Graphs.InNeighbors | GraphLibrary.java:145 | a vertex is an in-neighbour of `v` exactly when it has an edge to `v` |
| Reachability.WithinIsWalk | GraphLibrary.java:17-45 | a vertex is within `k` breadth-first levels of the source exactly when some walk of at most `k` edges reaches it |
| Reachability.DistanceUnique | GraphLibrary.java:17-45 | the breadth-first distance of a vertex is unique |
| GraphLibrary.Bfs | GraphLibrary.java:17-45 | fails with an unknown-vertex error exactly when the source is not a vertex; succeeds on every undirected graph; on success returns a tree whose vertices are exactly the vertices reachable from the source, where each non-source vertex has one edge to a neighbour one level closer, labelled as in the graph, and its depth is its breadth-first distance |
| GraphLibrary.BfsRound | GraphLibrary.java:27-43 | one poll of the queue keeps the invariant: the queue is in level order, every settled vertex has all its neighbours in the tree, and the undiscovered vertices or the queue shrink |
| GraphLibrary.VisitNeighbors | GraphLibrary.java:30-42 | fails only on a graph that is not undirected; otherwise every out-neighbour of the polled vertex ends up in the tree, the polled vertex stays in the tree and off the queue, the old queue is a prefix of the new one, old tree vertices keep their edges, and each newly found vertex has exactly one edge, back to the polled vertex under the graph's label, at one level deeper; the tree stays a breadth-first tree |
| GraphLibrary.BfsPath | GraphLibrary.java:17-45 | in the breadth-first tree, the root path of a vertex follows graph edges back to the source and has one more vertex than the distance |
| GraphLibrary.GetPath | GraphLibrary.java:54-81 | fails exactly when the vertex is not in the tree; otherwise returns a walk along tree edges from the vertex to a vertex without out-edges |
| GraphLibrary.GetPathUnique | GraphLibrary.java:54-81 | every such walk to a root is the one `GetPath` returns |
| GraphLibrary.MissingVertices | GraphLibrary.java:91-107 | the result is the set of the graph's vertices that the subgraph lacks |
| GraphLibrary.MissingPartition | GraphLibrary.java:91-107 | against a shortest-path tree, the missing vertices are exactly the unreachable ones, and together with the tree they partition the graph |
| GraphLibrary.AverageSeparationHelper | GraphLibrary.java:140-151 | returns the depth sum over the set of vertices below `branches` (itself included), each vertex counted at the starting height plus its depth below `branches` |
| GraphLibrary.SumChildren | GraphLibrary.java:145-148 | the loop over the in-neighbours `cs` returns the depth sum over every vertex below one of `cs`, each counted one level deeper than its parent; with `branches` itself at one level less, that is the depth sum over the covered set |
| GraphLibrary.AverageSeparation | GraphLibrary.java:117-128 | fails exactly when the root is absent; otherwise returns the total depth of the root's subtree divided by the number of tree vertices, and 0 for a one-vertex tree |
| GraphLibrary.BfsSeparation | GraphLibrary.java:117-128 | on a breadth-first tree, the depth sum the helper computes from the source is the sum of the breadth-first distances of all tree vertices |
| Forests.PathToRoot | GraphLibrary.java:63-79 | the path starts at the vertex, follows one out-edge per step and stops at a vertex without one; its length is the rank drop plus one |
| Forests.RootPathIff | GraphLibrary.java:63-79 | a sequence is a walk to a root exactly when it is the computed root path |
| Forests.PathRank | GraphLibrary.java:63-79 | the `i`-th vertex of the root path is `i` levels above the start |
| Forests.InSubtree | GraphLibrary.java:140-151 | a vertex is below `x` exactly when `x` lies on its root path |
| Forests.SiblingsDisjoint | GraphLibrary.java:145-148 | the subtrees of two different in-neighbours are disjoint, so no vertex is counted twice |
| Forests.SubtreeSplits | GraphLibrary.java:145-148 | every vertex below `x` other than `x` is below one of its in-neighbours |
| Forests.ChildFewer | GraphLibrary.java:145-148 | the subtree of an in-neighbour is strictly smaller, so the recursion ends |
| Forests.CoveredAll | GraphLibrary.java:140-151 | once every in-neighbour of `x` is handled, the covered set has the depth sum of the whole subtree of `x` |
| Forests.SubtreeSumIsDepthSum | GraphLibrary.java:140-151 | the recursive sum over in-neighbours equals the sum of depths over the subtree as a set |
| Collaboration.AddCredit | KevinBacon.java:107-120 | a credit for a listed movie appends the actor to that movie's list; a credit for a new movie starts a one-actor list; every other movie's list is unchanged |
| Collaboration.GroupByMovie | KevinBacon.java:106-121 | every credited movie has an entry, which lists the movie's actors in credit order, repeats included |
| Collaboration.ActorsOf | KevinBacon.java:106-121 | an actor is in a movie's list exactly when the movie credits that actor |
| Collaboration.AddActors | KevinBacon.java:122-126 | the vertices become the old vertices plus every actor name; existing vertices keep their edges, and new ones have none |
| Collaboration.Connect | KevinBacon.java:138-148 | for an unknown pair, adds an undirected edge labelled with the movie; for a known pair, adds the movie to the shared label of both directions; fails exactly when an endpoint is not a vertex |
| Collaboration.JoinPair | KevinBacon.java:137-149 | one pair step adds the current movie to the label of exactly the current pair, and keeps every other pair's label |
| Collaboration.JoinRow | KevinBacon.java:136-150 | one pass of the inner loop finishes a row of pairs, failing exactly when the cast has an actor who is not a vertex |
| Collaboration.AddMovie | KevinBacon.java:131-151 | after a movie, the labels are the shared movies among those handled so far; a cast of one adds nothing |
| Collaboration.AddCoStarEdges | KevinBacon.java:128-152 | succeeds exactly when every cast of two or more is known; then every edge label is the set of shared movies |
| Collaboration.CreateGraph | KevinBacon.java:106-152 | the vertices are the actor names; two actors are joined exactly when they share a movie, under the label of all movies they share, the same in both directions; fails exactly when a movie with two or more actors credits an unknown name |
| Collaboration.TogetherIff | KevinBacon.java:128-152 | two different actors share a movie exactly when the movie credits both of them; a movie with fewer than two credits joins nobody |
| Collaboration.CoStarsIff | KevinBacon.java:136-137 | two different actors meet at some pair of positions of a cast exactly when both are in the cast |
| Collaboration.MetBeforeEnds | KevinBacon.java:136-137 | the nested loops visit no pair before they start, and every pair of positions by the time they end |
| KevinBacon.NumberActors | KevinBacon.java:177-188 | selects exactly the tree vertices whose path to the centre has `steps` edges |
| KevinBacon.NumberActorsLevel | KevinBacon.java:177-188 | on a shortest-path tree, an actor is selected exactly when their breadth-first distance from the centre is `steps`; 0 selects only the centre, and a negative count selects nobody |
| KevinBacon.InsertBy | KevinBacon.java:225 | inserting into a sorted list keeps it sorted and adds exactly that element |
| KevinBacon.SortBy | KevinBacon.java:225 | the result is a permutation of the input, sorted by the key |
| KevinBacon.DegreeSort | KevinBacon.java:215-228 | returns every vertex exactly once, in order of non-decreasing in-degree |
| Scenario.TestActors | KevinBacon.java:266-272 | the seven inserts give exactly the seven names as vertices, none with an edge |
| Scenario.TestGraph | KevinBacon.java:265-302 | the seven inserts and seven undirected edges produce exactly the drawn adjacency |
| Scenario.PictureSymmetric | KevinBacon.java:275-302 | the test graph is undirected |
| Scenario.WithinPicture | KevinBacon.java:307 | the breadth-first levels from Kevin Bacon: {Kevin}; then Bob and Alice; then Charlie; then Dartmouth |
| Scenario.DistancesOfPicture | KevinBacon.java:307 | the distance from Kevin Bacon is 0, 1, 1, 2 and 3 for Kevin, Bob, Alice, Charlie and Dartmouth; Nobody and their friend have none |
| Scenario.TreeOfPicture | KevinBacon.java:307 | every shortest-path tree from Kevin Bacon has exactly the five connected names, at those depths |
| Scenario.PathInPicture | KevinBacon.java:311-318 | every root path in that tree has one more vertex than the start's Bacon number, and the number drops by one per step |
| Scenario.MissingOfPicture | KevinBacon.java:320-321 | the vertices missing from the tree are exactly Nobody and Nobody's Friend |
| Scenario.SeparationOfPicture | KevinBacon.java:323-324 | the average separation from Kevin Bacon is 7/5 |
| Scenario.Test1 | KevinBacon.java:263-324 | the test's expectations hold for every choice of iteration order, as listed below |

`Scenario.Test1` proves these expectations:

- the tree holds Kevin, Bob, Alice, Charlie and Dartmouth;
- Dartmouth's path is Dartmouth, Charlie, then Bob or Alice, then Kevin;
- Charlie's path is Charlie, then Bob or Alice, then Kevin;
- Alice's path is Alice, Kevin;
- Nobody and their friend are missing;
- the average separation is 7/5.

## Left out

- Reading the movie, actor and credit files is not modelled, and neither
  is `createIDMap`. Line splitting, `Integer.parseInt` and the id-to-name
  lookups of `createGraph` (KevinBacon.java:96-104) are not modelled
  either: the credits arrive already resolved, as (movie name, actor name)
  pairs. Only the actor map keeps its ids, as a map of 32-bit ids to names,
  because `createGraph` iterates over it.
- An unknown id is not modelled. In Java, `movieIDMap.get` and
  `actorIDMap.get` (KevinBacon.java:103-104) return `null` for an id they
  lack. Every credit of an unknown movie then falls under the one `null`
  key, as if those credits named a single movie. An unknown actor id gives a
  `null` name, which is never a vertex. The model covers the second case
  only as a name missing from the actor map, and the first only if the
  caller resolves every unknown movie to one shared name.
- `main`, the console interface, `printpath`, `findAvgSepbacon` and the
  printing in `test1` are I/O and are not modelled.
- The `Graph` interface and `AdjacencyMapGraph` are not part of this model.
  The graph is a map from vertex to out-edge map. Its insert, lookup,
  neighbour and degree operations have the behaviour the library relies on.
- Java exceptions become `Failure` results.
  - In `createGraph`, an edge to a name that is not a vertex throws a
    runtime exception. Only `IOException` is caught (KevinBacon.java:155),
    so the exception leaves `createGraph` and no graph is returned. The
    model's `Failure` returns no graph either.
  - Where several actors are unknown, Java throws at whichever pair the
    iteration order reaches first. The model only says that it fails.
- GraphLibrary.AverageSeparation: the result is an exact rational (`real`)
  rather than a Java `double`. Rounding of the division is not modelled.
  The helper returns `int`: it only adds integer heights, and Java's
  `total +=` narrows back to `int`. Integer overflow of the depth total is
  not modelled.
- GraphLibrary.GetPath and GraphLibrary.AverageSeparation take a ghost
  `rank` proving that the tree is a forest. On graphs with a cycle the
  Java loop and recursion do not terminate, and such inputs are outside the
  model. Java would also add every out-neighbour to the path. With at most
  one out-edge per vertex, that is the single parent.
- GraphLibrary.Bfs: it is stated for graphs whose edges end at vertices
  (`Valid`), which every graph the interface builds satisfies.
- KevinBacon.DegreeSort: the comparator subtracts two in-degrees. That
  cannot overflow, since degrees are at most the number of vertices, so it
  is modelled as a comparison. The contract does not fix the order among
  vertices of equal in-degree. `List.sort` keeps equal elements in their
  listed order, but that order is the unspecified set iteration order.
- KevinBacon.NumberActors: the steps count is an unbounded integer. A
  Java `int` holds every path length that fits in memory.
- Scenario.Test1: the seven names are the constructors of a datatype
  rather than strings, because the names are distinct. The scenario's facts
  are about vertices and edges, not edge labels. Labels matter only for
  printing, which is left out.
- Recursion depth (a `StackOverflowError` on very deep trees) is not
  modelled.
