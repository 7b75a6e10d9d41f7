/**
 The collaboration graph: one vertex per actor, and an undirected edge between
 two actors who are credited in a common movie, labelled with the set of all
 movies they share. It is built from credits, the (movie, actor) pairs of the
 credits file with the identifiers already resolved to names, in three steps:
 the credits are grouped by movie, every known actor becomes a vertex, and the
 actors of each movie are joined pairwise.
 */
module Collaboration {
  import opened Graphs

  type Actor = string
  type Movie = string

  /** An edge label: the movies the two actors have in common. */
  type Label = set<Movie>

  type Credit = (Movie, Actor)

  /** Identifiers are 32-bit signed integers, as parsed from the files. */
  newtype Int32 = x: int | -0x8000_0000 <= x < 0x8000_0000

  /** The actors credited in `movie`, in the order of the credits. */
  function ActorsOf(credits: seq<Credit>, movie: Movie): (r: seq<Actor>)
    ensures forall a :: a in r <==> (movie, a) in credits
  {
    if credits == [] then []
    else
      var last := credits[|credits| - 1];
      assert credits == credits[..|credits| - 1] + [last];
      ActorsOf(credits[..|credits| - 1], movie) + (if last.0 == movie then [last.1] else [])
  }

  /** The movies credited at least once. */
  ghost function MoviesOf(credits: seq<Credit>): set<Movie> {
    set c | c in credits :: c.0
  }

  /** A movie is credited exactly when some actor is credited in it. */
  lemma MoviesOfHaveActors(credits: seq<Credit>, movie: Movie)
    ensures movie in MoviesOf(credits) <==> ActorsOf(credits, movie) != []
  {
    if movie in MoviesOf(credits) {
      var c :| c in credits && c.0 == movie;
      assert c.1 in ActorsOf(credits, movie);
    }
    if ActorsOf(credits, movie) != [] {
      var a := ActorsOf(credits, movie)[0];
      assert (movie, a) in credits;
    }
  }

  /** Records one more credit: the first credit of a movie starts its list,
      later ones are appended to it. */
  function AddCredit(byMovie: map<Movie, seq<Actor>>, c: Credit): (r: map<Movie, seq<Actor>>)
    ensures r.Keys == byMovie.Keys + {c.0}
    ensures r[c.0] == (if c.0 in byMovie then byMovie[c.0] else []) + [c.1]
    ensures forall m :: m in byMovie && m != c.0 ==> r[m] == byMovie[m]
  {
    if c.0 in byMovie then byMovie[c.0 := byMovie[c.0] + [c.1]] else byMovie[c.0 := [c.1]]
  }

  /** Groups the credits by movie, in the order they are read. */
  method GroupByMovie(credits: seq<Credit>) returns (byMovie: map<Movie, seq<Actor>>)
    ensures byMovie.Keys == MoviesOf(credits)
    ensures forall m :: m in byMovie ==> byMovie[m] == ActorsOf(credits, m)
  {
    byMovie := map[];
    var n := 0;
    while n < |credits|
      invariant 0 <= n <= |credits|
      invariant Grouped(credits[..n], byMovie)
    {
      GroupStep(credits, n, byMovie);
      byMovie := AddCredit(byMovie, credits[n]);
      n := n + 1;
    }
    assert credits[..n] == credits;
  }

  /** `byMovie` maps exactly the credited movies to their actors. */
  ghost predicate Grouped(credits: seq<Credit>, byMovie: map<Movie, seq<Actor>>) {
    && byMovie.Keys == MoviesOf(credits)
    && forall m :: m in byMovie ==> byMovie[m] == ActorsOf(credits, m)
  }

  /** Recording the next credit keeps the grouping exact. */
  lemma GroupStep(credits: seq<Credit>, n: nat, byMovie: map<Movie, seq<Actor>>)
    requires n < |credits| && Grouped(credits[..n], byMovie)
    ensures Grouped(credits[..n + 1], AddCredit(byMovie, credits[n]))
  {
    var pre, c := credits[..n], credits[n];
    assert credits[..n + 1] == pre + [c];
    var post := AddCredit(byMovie, c);
    assert MoviesOf(credits[..n + 1]) == MoviesOf(pre) + {c.0};
    forall m | m in post
      ensures post[m] == ActorsOf(credits[..n + 1], m)
    {
      ActorsOfSnoc(pre, c, m);
      if m == c.0 && c.0 !in byMovie {
        MoviesOfHaveActors(pre, c.0);
      }
    }
  }

  lemma ActorsOfSnoc(credits: seq<Credit>, c: Credit, movie: Movie)
    ensures ActorsOf(credits + [c], movie) == ActorsOf(credits, movie) + (if c.0 == movie then [c.1] else [])
  {
    assert (credits + [c])[..|credits|] == credits;
  }

  /** Inserts every actor name of `actorIds` as a vertex, entry by entry; a
      name that occurs under several identifiers, or is already a vertex, is
      inserted once. */
  method AddActors(g: Graph<Actor, Label>, actorIds: map<Int32, Actor>) returns (r: Graph<Actor, Label>)
    ensures r.Keys == g.Keys + actorIds.Values
    ensures forall v :: v in g ==> r[v] == g[v]
    ensures forall v :: v in r && v !in g ==> r[v] == map[]
  {
    r := g;
    var entries := actorIds.Items;
    while entries != {}
      invariant entries <= actorIds.Items
      invariant r.Keys == g.Keys + NamesOf(actorIds.Items - entries)
      invariant forall v :: v in r ==> r[v] == if v in g then g[v] else map[]
      decreases entries
    {
      var entry :| entry in entries;
      NamesStep(actorIds.Items, entries, entry);
      r := InsertVertex(r, entry.1);
      entries := entries - {entry};
    }
    assert actorIds.Items - entries == actorIds.Items;
    NamesAll(actorIds);
  }

  /** The names of the given identifier entries. */
  ghost function NamesOf(entries: set<(Int32, Actor)>): set<Actor> {
    set e | e in entries :: e.1
  }

  lemma NamesStep(all: set<(Int32, Actor)>, entries: set<(Int32, Actor)>, e: (Int32, Actor))
    requires e in entries && entries <= all
    ensures NamesOf(all - (entries - {e})) == NamesOf(all - entries) + {e.1}
  {
    assert all - (entries - {e}) == (all - entries) + {e};
  }

  lemma NamesAll(actorIds: map<Int32, Actor>)
    ensures NamesOf(actorIds.Items) == actorIds.Values
  {
    forall v | v in actorIds.Values
      ensures v in NamesOf(actorIds.Items)
    {
      var id :| id in actorIds && actorIds[id] == v;
      assert (id, v) in actorIds.Items;
    }
  }

  /** Positions `i < j` of `cast` hold `a` and `b`, in either order. */
  predicate PairAt(cast: seq<Actor>, i: int, j: int, a: Actor, b: Actor) {
    0 <= i < j < |cast| && ((cast[i] == a && cast[j] == b) || (cast[i] == b && cast[j] == a))
  }

  /** `a` and `b` are credited together: at two different positions of `cast`. */
  ghost predicate CoStars(cast: seq<Actor>, a: Actor, b: Actor) {
    exists i, j :: PairAt(cast, i, j, a, b)
  }

  /** `a` and `b` meet at a pair of positions that the nested loops over
      `cast` visit before the pair `(i, j)`. */
  ghost predicate MetBefore(cast: seq<Actor>, i: int, j: int, a: Actor, b: Actor) {
    exists i', j' :: PairAt(cast, i', j', a, b) && (i' < i || (i' == i && j' < j))
  }

  /** The movies among `done` in which `a` and `b` are credited together. */
  ghost function Shared(byMovie: map<Movie, seq<Actor>>, done: set<Movie>, a: Actor, b: Actor): set<Movie> {
    set m | m in done && m in byMovie && CoStars(byMovie[m], a, b)
  }

  /** The label `a` and `b` should carry while the pairs of `movie` are
      visited, just before the pair `(i, j)`. */
  ghost function SoFar(byMovie: map<Movie, seq<Actor>>, done: set<Movie>, movie: Movie, i: int, j: int,
                       a: Actor, b: Actor): set<Movie>
  {
    Shared(byMovie, done, a, b) + (if movie in byMovie && MetBefore(byMovie[movie], i, j, a, b) then {movie} else {})
  }

  /** `x` is a vertex of `g`, joined to `y` exactly when `y` is a vertex and
      `want` is not empty, and then by an edge labelled `want`. */
  ghost predicate PairLabelled(g: Graph<Actor, Label>, vs: set<Actor>, x: Actor, y: Actor, want: set<Movie>) {
    && x in g
    && (y in g[x] <==> y in vs && want != {})
    && (y in g[x] ==> g[x][y] == want)
  }

  /** `g` has the vertices `vs`; its edges join exactly the vertices that have
      shared one of the movies `done`, labelled with the movies they share. */
  ghost predicate Built(g: Graph<Actor, Label>, vs: set<Actor>, byMovie: map<Movie, seq<Actor>>, done: set<Movie>) {
    && g.Keys == vs
    && forall a, b :: a in g ==> PairLabelled(g, vs, a, b, Shared(byMovie, done, a, b))
  }

  /** As `Built`, part way through the pairs of `movie`. */
  ghost predicate Progress(g: Graph<Actor, Label>, vs: set<Actor>, byMovie: map<Movie, seq<Actor>>, done: set<Movie>,
                           movie: Movie, i: int, j: int)
  {
    && g.Keys == vs
    && forall a, b :: a in g ==> PairLabelled(g, vs, a, b, SoFar(byMovie, done, movie, i, j, a, b))
  }

  lemma SharedSymmetric(byMovie: map<Movie, seq<Actor>>, done: set<Movie>, a: Actor, b: Actor)
    ensures Shared(byMovie, done, a, b) == Shared(byMovie, done, b, a)
  {
    forall m | m in byMovie
      ensures CoStars(byMovie[m], a, b) == CoStars(byMovie[m], b, a)
    {
      if CoStars(byMovie[m], a, b) {
        var i, j :| PairAt(byMovie[m], i, j, a, b);
        assert PairAt(byMovie[m], i, j, b, a);
      }
      if CoStars(byMovie[m], b, a) {
        var i, j :| PairAt(byMovie[m], i, j, b, a);
        assert PairAt(byMovie[m], i, j, a, b);
      }
    }
  }

  lemma SoFarSymmetric(byMovie: map<Movie, seq<Actor>>, done: set<Movie>, movie: Movie, i: int, j: int,
                       a: Actor, b: Actor)
    ensures SoFar(byMovie, done, movie, i, j, a, b) == SoFar(byMovie, done, movie, i, j, b, a)
  {
    SharedSymmetric(byMovie, done, a, b);
    if movie in byMovie {
      var cast := byMovie[movie];
      if MetBefore(cast, i, j, a, b) {
        var i', j' :| PairAt(cast, i', j', a, b) && (i' < i || (i' == i && j' < j));
        assert PairAt(cast, i', j', b, a);
      }
      if MetBefore(cast, i, j, b, a) {
        var i', j' :| PairAt(cast, i', j', b, a) && (i' < i || (i' == i && j' < j));
        assert PairAt(cast, i', j', a, b);
      }
    }
  }

  /** Visiting the pair `(i, j)` adds exactly that pair. */
  lemma MetBeforeNext(cast: seq<Actor>, i: int, j: int, a: Actor, b: Actor)
    ensures MetBefore(cast, i, j + 1, a, b) <==> MetBefore(cast, i, j, a, b) || PairAt(cast, i, j, a, b)
  {
    if MetBefore(cast, i, j + 1, a, b) {
      var i', j' :| PairAt(cast, i', j', a, b) && (i' < i || (i' == i && j' < j + 1));
      if !(i' == i && j' == j) {
        assert MetBefore(cast, i, j, a, b);
      }
    }
    if PairAt(cast, i, j, a, b) {
      assert MetBefore(cast, i, j + 1, a, b);
    }
  }

  /** The end of one row of pairs is the start of the next. */
  lemma MetBeforeRow(cast: seq<Actor>, i: int, a: Actor, b: Actor)
    ensures MetBefore(cast, i, |cast|, a, b) <==> MetBefore(cast, i + 1, i + 2, a, b)
  {
    if MetBefore(cast, i + 1, i + 2, a, b) {
      var i', j' :| PairAt(cast, i', j', a, b) && (i' < i + 1 || (i' == i + 1 && j' < i + 2));
      assert MetBefore(cast, i, |cast|, a, b);
    }
  }

  /** Before the first pair nothing has met; after the last row every pair of
      co-stars has. */
  lemma MetBeforeEnds(cast: seq<Actor>, a: Actor, b: Actor)
    ensures !MetBefore(cast, 0, 1, a, b)
    ensures MetBefore(cast, |cast|, |cast| + 1, a, b) <==> CoStars(cast, a, b)
  {
    if CoStars(cast, a, b) {
      var i, j :| PairAt(cast, i, j, a, b);
      assert MetBefore(cast, |cast|, |cast| + 1, a, b);
    }
  }

  /** Adding `movie` to the finished movies adds it to the label of exactly
      the pairs it credits together. */
  lemma SharedAdd(byMovie: map<Movie, seq<Actor>>, done: set<Movie>, movie: Movie, a: Actor, b: Actor)
    requires movie in byMovie
    ensures Shared(byMovie, done + {movie}, a, b)
            == Shared(byMovie, done, a, b) + (if CoStars(byMovie[movie], a, b) then {movie} else {})
  {
  }

  /** Starting on a movie: no pair of it has been visited yet. */
  lemma StartMovie(g: Graph<Actor, Label>, vs: set<Actor>, byMovie: map<Movie, seq<Actor>>, done: set<Movie>,
                   movie: Movie)
    requires movie in byMovie && Built(g, vs, byMovie, done)
    ensures Progress(g, vs, byMovie, done, movie, 0, 1)
  {
    forall a, b
      ensures SoFar(byMovie, done, movie, 0, 1, a, b) == Shared(byMovie, done, a, b)
    {
      MetBeforeEnds(byMovie[movie], a, b);
    }
  }

  /** Finishing a movie: every pair of it has been visited. */
  lemma FinishMovie(g: Graph<Actor, Label>, vs: set<Actor>, byMovie: map<Movie, seq<Actor>>, done: set<Movie>,
                    movie: Movie)
    requires movie in byMovie
    requires Progress(g, vs, byMovie, done, movie, |byMovie[movie]|, |byMovie[movie]| + 1)
    ensures Built(g, vs, byMovie, done + {movie})
  {
    var n := |byMovie[movie]|;
    forall a, b
      ensures SoFar(byMovie, done, movie, n, n + 1, a, b) == Shared(byMovie, done + {movie}, a, b)
    {
      MetBeforeEnds(byMovie[movie], a, b);
      SharedAdd(byMovie, done, movie, a, b);
    }
  }

  /** A movie with fewer than two actors credits nobody together. */
  lemma SoloMovie(byMovie: map<Movie, seq<Actor>>, done: set<Movie>, movie: Movie, a: Actor, b: Actor)
    requires movie in byMovie && |byMovie[movie]| <= 1
    ensures !CoStars(byMovie[movie], a, b)
    ensures Shared(byMovie, done + {movie}, a, b) == Shared(byMovie, done, a, b)
  {
    SharedAdd(byMovie, done, movie, a, b);
  }

  /** Skipping a movie with fewer than two actors keeps the graph built. */
  lemma SkipMovie(g: Graph<Actor, Label>, vs: set<Actor>, byMovie: map<Movie, seq<Actor>>, done: set<Movie>,
                  movie: Movie)
    requires movie in byMovie && |byMovie[movie]| <= 1 && Built(g, vs, byMovie, done)
    ensures Built(g, vs, byMovie, done + {movie})
  {
    forall a, b
      ensures Shared(byMovie, done + {movie}, a, b) == Shared(byMovie, done, a, b)
    {
      SoloMovie(byMovie, done, movie, a, b);
    }
  }

  /** Moving on to the next row of pairs changes no label. */
  lemma NextRow(g: Graph<Actor, Label>, vs: set<Actor>, byMovie: map<Movie, seq<Actor>>, done: set<Movie>,
                movie: Movie, i: int)
    requires movie in byMovie
    requires Progress(g, vs, byMovie, done, movie, i, |byMovie[movie]|)
    ensures Progress(g, vs, byMovie, done, movie, i + 1, i + 2)
  {
    forall a, b {:trigger SoFar(byMovie, done, movie, i + 1, i + 2, a, b)} | a in g
      ensures PairLabelled(g, vs, a, b, SoFar(byMovie, done, movie, i + 1, i + 2, a, b))
    {
      assert PairLabelled(g, vs, a, b, SoFar(byMovie, done, movie, i, |byMovie[movie]|, a, b));
      MetBeforeRow(byMovie[movie], i, a, b);
    }
  }

  /** Joins `a` and `b` for `movie`: when they are not yet joined, an edge in
      each direction labelled with just `movie`; otherwise `movie` is added to
      their label. The label is one set object shared by both directions, so
      adding to it changes the label of both. */
  function Connect(g: Graph<Actor, Label>, movie: Movie, a: Actor, b: Actor): (r: Result<Graph<Actor, Label>>)
    ensures r.Failure? <==> a !in g || b !in g
    ensures r.Failure? ==> r.error == UnknownVertex
    ensures r.Success? ==> r.value.Keys == g.Keys
    ensures r.Success? ==> HasEdge(r.value, a, b) && HasEdge(r.value, b, a)
    ensures r.Success? ==>
              r.value[a][b] == r.value[b][a] == (if HasEdge(g, a, b) then g[a][b] else {}) + {movie}
    ensures r.Success? ==> forall x, y :: x in g && (x, y) != (a, b) && (x, y) != (b, a) ==>
                             (y in r.value[x] <==> y in g[x]) && (y in g[x] ==> r.value[x][y] == g[x][y])
  {
    if !HasEdge(g, a, b) then InsertUndirected(g, a, b, {movie})
    else InsertUndirected(g, a, b, g[a][b] + {movie})
  }

  /** Visiting the pair `(i, j)` of a movie whose two actors are vertices
      joins them, and leaves the graph built up to the next pair. */
  lemma ConnectStep(g: Graph<Actor, Label>, vs: set<Actor>, byMovie: map<Movie, seq<Actor>>, done: set<Movie>,
                    movie: Movie, i: int, j: int, step: Result<Graph<Actor, Label>>)
    requires movie in byMovie && 0 <= i < j < |byMovie[movie]|
    requires Progress(g, vs, byMovie, done, movie, i, j)
    requires step == Connect(g, movie, byMovie[movie][i], byMovie[movie][j]) && step.Success?
    ensures Progress(step.value, vs, byMovie, done, movie, i, j + 1)
  {
    var cast := byMovie[movie];
    var a, b := cast[i], cast[j];
    var g' := step.value;
    assert PairLabelled(g, vs, a, b, SoFar(byMovie, done, movie, i, j, a, b));
    forall x, y {:trigger SoFar(byMovie, done, movie, i, j + 1, x, y)} | x in g'
      ensures PairLabelled(g', vs, x, y, SoFar(byMovie, done, movie, i, j + 1, x, y))
    {
      assert PairLabelled(g, vs, x, y, SoFar(byMovie, done, movie, i, j, x, y));
      ConnectPair(g, vs, byMovie, done, movie, i, j, x, y);
    }
  }

  lemma ConnectPair(g: Graph<Actor, Label>, vs: set<Actor>, byMovie: map<Movie, seq<Actor>>, done: set<Movie>,
                    movie: Movie, i: int, j: int, x: Actor, y: Actor)
    requires movie in byMovie && 0 <= i < j < |byMovie[movie]|
    requires g.Keys == vs && byMovie[movie][i] in vs && byMovie[movie][j] in vs && x in vs
    requires PairLabelled(g, vs, byMovie[movie][i], byMovie[movie][j],
                          SoFar(byMovie, done, movie, i, j, byMovie[movie][i], byMovie[movie][j]))
    requires PairLabelled(g, vs, x, y, SoFar(byMovie, done, movie, i, j, x, y))
    ensures Connect(g, movie, byMovie[movie][i], byMovie[movie][j]).Success?
    ensures PairLabelled(Connect(g, movie, byMovie[movie][i], byMovie[movie][j]).value, vs, x, y,
                         SoFar(byMovie, done, movie, i, j + 1, x, y))
  {
    var cast := byMovie[movie];
    var a, b := cast[i], cast[j];
    MetBeforeNext(cast, i, j, x, y);
    if (x, y) == (a, b) || (x, y) == (b, a) {
      assert PairAt(cast, i, j, x, y);
      SoFarSymmetric(byMovie, done, movie, i, j, a, b);
      SoFarSymmetric(byMovie, done, movie, i, j + 1, a, b);
    } else {
      assert !PairAt(cast, i, j, x, y);
    }
  }

  /** Every actor of `cast` is a vertex. */
  ghost predicate CastKnown(cast: seq<Actor>, vs: set<Actor>) {
    forall k :: 0 <= k < |cast| ==> cast[k] in vs
  }

  /** Every actor of every movie with at least two actors is a vertex. */
  ghost predicate AllCastsKnown(byMovie: map<Movie, seq<Actor>>, vs: set<Actor>) {
    forall m :: m in byMovie && |byMovie[m]| > 1 ==> CastKnown(byMovie[m], vs)
  }

  /** Joins every two actors credited together in `movie`, visiting the pairs
      of positions `i < next` row by row; a movie with fewer than two actors
      is skipped. Fails at the first pair with an actor that is not a vertex.
      The ghost `vs` and `done` name the vertices and the movies already
      joined. */
  method AddMovie(g: Graph<Actor, Label>, byMovie: map<Movie, seq<Actor>>, movie: Movie,
                  ghost vs: set<Actor>, ghost done: set<Movie>)
    returns (r: Result<Graph<Actor, Label>>)
    requires movie in byMovie && Built(g, vs, byMovie, done)
    ensures r.Success? <==> |byMovie[movie]| <= 1 || CastKnown(byMovie[movie], vs)
    ensures r.Failure? ==> r.error == UnknownVertex
    ensures r.Success? ==> Built(r.value, vs, byMovie, done + {movie})
  {
    var actors := byMovie[movie];
    if |actors| > 1 {
      StartMovie(g, vs, byMovie, done, movie);
      var h := g;
      var i := 0;
      while i < |actors|
        invariant 0 <= i <= |actors|
        invariant Progress(h, vs, byMovie, done, movie, i, i + 1)
        invariant i > 0 ==> CastKnown(actors, vs)
      {
        var row := JoinRow(h, byMovie, movie, i, vs, done);
        if row.Failure? {
          return row;
        }
        h := row.value;
        i := i + 1;
      }
      FinishMovie(h, vs, byMovie, done, movie);
      r := Success(h);
    } else {
      SkipMovie(g, vs, byMovie, done, movie);
      r := Success(g);
    }
  }

  /** One row of the nested loops: joins the actor at position `i` of the
      movie to every actor after it, failing at the first one that is not a
      vertex. */
  method JoinRow(g: Graph<Actor, Label>, byMovie: map<Movie, seq<Actor>>, movie: Movie, i: int,
                 ghost vs: set<Actor>, ghost done: set<Movie>)
    returns (r: Result<Graph<Actor, Label>>)
    requires movie in byMovie && 0 <= i < |byMovie[movie]| && |byMovie[movie]| > 1
    requires Progress(g, vs, byMovie, done, movie, i, i + 1)
    requires i > 0 ==> CastKnown(byMovie[movie], vs)
    ensures r.Success? <==> CastKnown(byMovie[movie], vs)
    ensures r.Failure? ==> r.error == UnknownVertex
    ensures r.Success? ==> Progress(r.value, vs, byMovie, done, movie, i + 1, i + 2)
  {
    var actors := byMovie[movie];
    var h := g;
    var next := i + 1;
    while next < |actors|
      invariant i + 1 <= next <= |actors|
      invariant Progress(h, vs, byMovie, done, movie, i, next)
      invariant forall k :: 0 < k < next ==> actors[k] in vs
      invariant next > i + 1 ==> actors[i] in vs
    {
      var step := JoinPair(h, byMovie, movie, i, next, vs, done);
      if step.Failure? {
        return step;
      }
      h := step.value;
      next := next + 1;
    }
    NextRow(h, vs, byMovie, done, movie, i);
    r := Success(h);
  }

  /** Visits the pair `(i, j)` of `movie`: joins its two actors, or fails
      when one of them is not a vertex. */
  method JoinPair(g: Graph<Actor, Label>, byMovie: map<Movie, seq<Actor>>, movie: Movie, i: int, j: int,
                  ghost vs: set<Actor>, ghost done: set<Movie>)
    returns (r: Result<Graph<Actor, Label>>)
    requires movie in byMovie && 0 <= i < j < |byMovie[movie]|
    requires Progress(g, vs, byMovie, done, movie, i, j)
    ensures r.Failure? <==> byMovie[movie][i] !in vs || byMovie[movie][j] !in vs
    ensures r.Failure? ==> r.error == UnknownVertex
    ensures r.Success? ==> Progress(r.value, vs, byMovie, done, movie, i, j + 1)
  {
    r := Connect(g, movie, byMovie[movie][i], byMovie[movie][j]);
    if r.Success? {
      ConnectStep(g, vs, byMovie, done, movie, i, j, r);
    }
  }

  /** A graph without edges is built for no movie. */
  lemma NothingBuilt(g: Graph<Actor, Label>, byMovie: map<Movie, seq<Actor>>)
    requires forall v :: v in g ==> g[v] == map[]
    ensures Built(g, g.Keys, byMovie, {})
  {
    forall a, b | a in g
      ensures PairLabelled(g, g.Keys, a, b, Shared(byMovie, {}, a, b))
    {
      assert Shared(byMovie, {}, a, b) == {};
    }
  }

  /** Joins the actors of every movie, movies in any order, starting from a
      graph without edges; fails when some movie with two or more actors
      credits one that is not a vertex. */
  method AddCoStarEdges(g: Graph<Actor, Label>, byMovie: map<Movie, seq<Actor>>) returns (r: Result<Graph<Actor, Label>>)
    requires forall v :: v in g ==> g[v] == map[]
    ensures r.Success? <==> AllCastsKnown(byMovie, g.Keys)
    ensures r.Failure? ==> r.error == UnknownVertex
    ensures r.Success? ==> Built(r.value, g.Keys, byMovie, byMovie.Keys)
  {
    ghost var vs := g.Keys;
    NothingBuilt(g, byMovie);
    var h := g;
    var movies := byMovie.Keys;
    while movies != {}
      invariant movies <= byMovie.Keys
      invariant Built(h, vs, byMovie, byMovie.Keys - movies)
      invariant forall m :: m in byMovie.Keys - movies && |byMovie[m]| > 1 ==> CastKnown(byMovie[m], vs)
      decreases movies
    {
      var movie :| movie in movies;
      var step := AddMovie(h, byMovie, movie, vs, byMovie.Keys - movies);
      if step.Failure? {
        return step;
      }
      assert (byMovie.Keys - movies) + {movie} == byMovie.Keys - (movies - {movie});
      h := step.value;
      movies := movies - {movie};
    }
    assert byMovie.Keys - movies == byMovie.Keys;
    r := Success(h);
  }

  /** The movies of `credits` in which `a` and `b` are credited together. */
  ghost function Together(credits: seq<Credit>, a: Actor, b: Actor): set<Movie> {
    set m | m in MoviesOf(credits) && CoStars(ActorsOf(credits, m), a, b)
  }

  /** Builds the collaboration graph from the credits and the actor names:
      every name becomes a vertex, and two actors are joined, in both
      directions and under one label, exactly when they share a movie, the
      label being every movie they share. Fails when a movie with two or more
      actors credits a name that is not an actor. */
  method CreateGraph(credits: seq<Credit>, actorIds: map<Int32, Actor>) returns (r: Result<Graph<Actor, Label>>)
    ensures r.Success? <==>
              forall m, a :: (m, a) in credits && |ActorsOf(credits, m)| > 1 ==> a in actorIds.Values
    ensures r.Failure? ==> r.error == UnknownVertex
    ensures r.Success? ==> r.value.Keys == actorIds.Values
    ensures r.Success? ==> forall a, b :: HasEdge(r.value, a, b) <==>
                             a in actorIds.Values && b in actorIds.Values && Together(credits, a, b) != {}
    ensures r.Success? ==> forall a, b :: HasEdge(r.value, a, b) ==> r.value[a][b] == Together(credits, a, b)
    ensures r.Success? ==> Symmetric(r.value) && forall a, b :: HasEdge(r.value, a, b) ==> r.value[a][b] == r.value[b][a]
  {
    var byMovie := GroupByMovie(credits);
    var g := AddActors(Empty(), actorIds);
    r := AddCoStarEdges(g, byMovie);
    CastsOfCredits(credits, byMovie, actorIds.Values);
    if r.Success? {
      BuiltFromCredits(r.value, actorIds.Values, credits, byMovie);
    }
  }

  /** Every cast is known exactly when every actor credited in a movie with
      two or more actors is known. */
  lemma CastsOfCredits(credits: seq<Credit>, byMovie: map<Movie, seq<Actor>>, vs: set<Actor>)
    requires Grouped(credits, byMovie)
    ensures AllCastsKnown(byMovie, vs) <==>
              forall m, a :: (m, a) in credits && |ActorsOf(credits, m)| > 1 ==> a in vs
  {
    if AllCastsKnown(byMovie, vs) {
      forall m, a | (m, a) in credits && |ActorsOf(credits, m)| > 1
        ensures a in vs
      {
        assert m in MoviesOf(credits);
        var cast := byMovie[m];
        var k :| 0 <= k < |cast| && cast[k] == a;
      }
    } else {
      var m :| m in byMovie && |byMovie[m]| > 1 && !CastKnown(byMovie[m], vs);
      var k :| 0 <= k < |byMovie[m]| && byMovie[m][k] !in vs;
      assert (m, byMovie[m][k]) in credits;
    }
  }

  /** A graph built for every grouped movie has the labels of the credits,
      the same in both directions. */
  lemma BuiltFromCredits(g: Graph<Actor, Label>, vs: set<Actor>, credits: seq<Credit>, byMovie: map<Movie, seq<Actor>>)
    requires Grouped(credits, byMovie) && Built(g, vs, byMovie, byMovie.Keys)
    ensures forall a, b :: HasEdge(g, a, b) <==> a in vs && b in vs && Together(credits, a, b) != {}
    ensures forall a, b :: HasEdge(g, a, b) ==> g[a][b] == Together(credits, a, b)
    ensures Symmetric(g) && forall a, b :: HasEdge(g, a, b) ==> g[a][b] == g[b][a]
  {
    forall a, b
      ensures Shared(byMovie, byMovie.Keys, a, b) == Together(credits, a, b)
    {
    }
    forall a, b | HasEdge(g, a, b)
      ensures b in g && a in g[b] && g[a][b] == g[b][a]
    {
      SharedSymmetric(byMovie, byMovie.Keys, a, b);
      assert PairLabelled(g, vs, b, a, Shared(byMovie, byMovie.Keys, b, a));
    }
  }

  /** Two different actors are credited together exactly when both are in
      the cast. */
  lemma CoStarsIff(cast: seq<Actor>, a: Actor, b: Actor)
    requires a != b
    ensures CoStars(cast, a, b) <==> a in cast && b in cast
  {
    if a in cast && b in cast {
      var i :| 0 <= i < |cast| && cast[i] == a;
      var j :| 0 <= j < |cast| && cast[j] == b;
      if i < j {
        assert PairAt(cast, i, j, a, b);
      } else {
        assert PairAt(cast, j, i, a, b);
      }
    }
  }

  /** The label of two different actors is exactly the set of movies whose
      cast lists both; a movie with fewer than two actors is in no label. */
  lemma TogetherIff(credits: seq<Credit>, a: Actor, b: Actor, m: Movie)
    ensures a != b ==> (m in Together(credits, a, b) <==> (m, a) in credits && (m, b) in credits)
    ensures |ActorsOf(credits, m)| < 2 ==> m !in Together(credits, a, b)
  {
    if a != b {
      CoStarsIff(ActorsOf(credits, m), a, b);
      if (m, a) in credits {
        assert m in MoviesOf(credits);
      }
    }
  }
}
