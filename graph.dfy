/**
 * The two lookup tables of the movie database (degrees.py: `people` and
 * `movies`), the one-hop neighbour relation they define, and the star join
 * that fills them.
 */
module Graph {

  type PersonId = string
  type MovieId = string

  /** One step of a connection: `person` was reached through `movie`. */
  datatype Hop = Hop(movie: MovieId, person: PersonId)

  /**
   * `people[p]` is the set of movies person p starred in, `movies[m]` the set
   * of people who starred in movie m. Names, birth years and titles play no
   * part in the search and are not kept.
   */
  datatype Tables = Tables(people: map<PersonId, set<MovieId>>, movies: map<MovieId, set<PersonId>>)

  /** Every movie id a person lists and every person id a movie lists is a key of the other table. */
  ghost predicate Closed(t: Tables) {
    && (forall p :: p in t.people ==> t.people[p] <= t.movies.Keys)
    && (forall m :: m in t.movies ==> t.movies[m] <= t.people.Keys)
  }

  /** A person lists a movie exactly when the movie lists the person. */
  ghost predicate Symmetric(t: Tables) {
    && (forall p, m :: p in t.people && m in t.people[p] ==> m in t.movies && p in t.movies[m])
    && (forall m, p :: m in t.movies && p in t.movies[m] ==> p in t.people && m in t.people[p])
  }

  /** `h` is a one-hop neighbour of `p`: p starred in `h.movie`, and so did `h.person`. */
  ghost predicate CoStarred(t: Tables, p: PersonId, h: Hop) {
    p in t.people && h.movie in t.people[p] && h.movie in t.movies && h.person in t.movies[h.movie]
  }

  /** `p` has no one-hop neighbour at all. */
  ghost predicate Isolated(t: Tables, p: PersonId) {
    forall h :: !CoStarred(t, p, h)
  }

  /** A non-empty sequence of hops, the first from `source`, each later one from the previous hop's person. */
  ghost predicate IsChain(t: Tables, source: PersonId, c: seq<Hop>) {
    && |c| > 0
    && CoStarred(t, source, c[0])
    && forall i :: 0 < i < |c| ==> CoStarred(t, c[i - 1].person, c[i])
  }

  ghost predicate IsChainTo(t: Tables, source: PersonId, c: seq<Hop>, target: PersonId) {
    IsChain(t, source, c) && c[|c| - 1].person == target
  }

  ghost predicate Reachable(t: Tables, source: PersonId, target: PersonId) {
    exists c :: IsChainTo(t, source, c, target)
  }

  /** No person id occurs in two hops of `c`. */
  ghost predicate DistinctPersons(c: seq<Hop>) {
    forall i, j :: 0 <= i < j < |c| ==> c[i].person != c[j].person
  }

  /**
   * `neighbors_for_person`: every (movie, co-star) pair of `p`, the pair of
   * `p` with itself included. Looking up an unknown person or movie raises
   * `KeyError` in `degrees.py`, hence the precondition.
   */
  method NeighborsForPerson(t: Tables, p: PersonId) returns (neighbors: set<Hop>)
    requires p in t.people && t.people[p] <= t.movies.Keys
    ensures forall h :: h in neighbors <==> h.movie in t.people[p] && h.person in t.movies[h.movie]
  {
    var movieIds := t.people[p];
    neighbors := {};
    var todo := movieIds;
    while todo != {}
      invariant todo <= movieIds
      invariant forall h :: h in neighbors <==> h.movie in movieIds - todo && h.person in t.movies[h.movie]
      decreases todo
    {
      var movieId :| movieId in todo;
      var stars := t.movies[movieId];
      var rest := stars;
      while rest != {}
        invariant rest <= stars
        invariant forall h :: h in neighbors <==>
          (h.movie in movieIds - todo && h.person in t.movies[h.movie]) || (h.movie == movieId && h.person in stars - rest)
        decreases rest
      {
        var personId :| personId in rest;
        neighbors := neighbors + {Hop(movieId, personId)};
        rest := rest - {personId};
      }
      todo := todo - {movieId};
    }
  }

  /** Symmetric tables are closed. */
  lemma {:induction false} SymmetricIsClosed(t: Tables)
    requires Symmetric(t)
    ensures Closed(t)
  {
  }

  /**
   * In symmetric tables a person with a movie is their own neighbour, so the
   * one-hop chain back to oneself exists and no chain to oneself is shorter.
   */
  lemma {:induction false} SelfChain(t: Tables, p: PersonId)
    requires Symmetric(t) && p in t.people && t.people[p] != {}
    ensures !Isolated(t, p)
    ensures Reachable(t, p, p)
    ensures exists m :: IsChainTo(t, p, [Hop(m, p)], p)
  {
    var m :| m in t.people[p];
    assert CoStarred(t, p, Hop(m, p));
    assert IsChainTo(t, p, [Hop(m, p)], p);
  }

  /**
   * In symmetric tables a reachable person is never isolated: the early
   * return on a target without neighbours only saves work there.
   */
  lemma {:induction false} ReachableIsNotIsolated(t: Tables, source: PersonId, target: PersonId)
    requires Symmetric(t) && Reachable(t, source, target)
    ensures !Isolated(t, target)
  {
    var c: seq<Hop> :| IsChainTo(t, source, c, target);
    var last := |c| - 1;
    if last > 0 {
      assert CoStarred(t, c[last - 1].person, c[last]);
    }
    var m := c[last].movie;
    assert CoStarred(t, target, Hop(m, target));
  }

  /** The two tables as `load_data` fills them in place. */
  class Database {
    var people: map<PersonId, set<MovieId>>
    var movies: map<MovieId, set<PersonId>>

    /** The two maps as one `Tables` value. */
    function Snapshot(): (t: Tables)
      reads this
    {
      Tables(people, movies)
    }

    /** The tables after the people and movie records are read: every movie and star set still empty. */
    constructor (personIds: set<PersonId>, movieIds: set<MovieId>)
      ensures people.Keys == personIds && movies.Keys == movieIds
      ensures forall p :: p in people ==> people[p] == {}
      ensures forall m :: m in movies ==> movies[m] == {}
      ensures Symmetric(Snapshot())
    {
      people := map p | p in personIds :: {};
      movies := map m | m in movieIds :: {};
    }

    /**
     * One row of the star join: add the movie to the person's movies, then
     * the person to the movie's stars; a `KeyError` at either step is
     * swallowed, so the first step's effect stays when only the movie is unknown.
     */
    method AddStar(personId: PersonId, movieId: MovieId)
      modifies this
      ensures personId !in old(people) ==> people == old(people) && movies == old(movies)
      ensures personId in old(people) ==> people == old(people)[personId := old(people)[personId] + {movieId}]
      ensures personId in old(people) && movieId in old(movies) ==>
        movies == old(movies)[movieId := old(movies)[movieId] + {personId}]
      ensures movieId !in old(movies) ==> movies == old(movies)
      ensures old(Symmetric(Snapshot())) && (personId !in old(people) || movieId in old(movies)) ==> Symmetric(Snapshot())
      ensures old(Closed(Snapshot())) && (personId !in old(people) || movieId in old(movies)) ==> Closed(Snapshot())
      ensures personId in old(people) && movieId !in old(movies) ==> !Closed(Snapshot())
    {
      if personId in people {
        people := people[personId := people[personId] + {movieId}];
        if movieId in movies {
          movies := movies[movieId := movies[movieId] + {personId}];
        }
      }
      assert personId in old(people) && movieId !in old(movies) ==> !(people[personId] <= movies.Keys);
    }
  }
}
