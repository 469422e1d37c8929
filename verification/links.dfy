/**
  Queries on the links table, which maps a movie to its identifiers in
  external movie databases: lookup by movie id, the paginated listing, the row
  count, and how that count relates to the movies table.
 */
module Links {
  import opened Wrappers
  import opened Tables
  import Movies

  /** A row of the links table; either external identifier may be missing. */
  datatype Link = Link(movieId: int, imdbId: Option<string>, tmdbId: Option<int>)

  function MovieIdIs(movieId: int): Link -> bool {
    (x: Link) => x.movieId == movieId
  }

  /** `get_link`: the first link of movie `movieId`, or `None` when there is none. */
  function GetLink(links: seq<Link>, movieId: int): (r: Option<Link>)
    ensures r.Some? ==> r.value in links && r.value.movieId == movieId
    ensures r.Some? ==> IsFirstMatch(links, MovieIdIs(movieId), r.value)
    ensures r.None? <==> forall x :: x in links ==> x.movieId != movieId
  {
    FirstMatch(links, MovieIdIs(movieId))
  }

  /** `get_links`: the window `[skip, skip + limit)` of the whole table, with no filter. */
  function GetLinks(links: seq<Link>, skip: nat, limit: nat): (r: seq<Link>)
    ensures |r| <= limit && |r| <= |links|
    ensures skip >= |links| ==> |r| == 0
    ensures skip < |links| ==> |r| == Min(limit, |links| - skip)
    ensures forall i :: 0 <= i < |r| ==> skip + i < |links| && r[i] == links[skip + i]
    ensures IsSubsequence(r, links)
  {
    Page(links, skip, limit)
  }

  /** Consecutive pages concatenate to the page that spans both. */
  lemma GetLinksCompose(links: seq<Link>, skip: nat, a: nat, b: nat)
    ensures GetLinks(links, skip, a) + GetLinks(links, skip + a, b) == GetLinks(links, skip, a + b)
  {
    PageCompose(links, skip, a, b);
  }

  /** A link found by the lookup is on the complete listing. */
  lemma GetLinkIsListed(links: seq<Link>, movieId: int)
    ensures GetLink(links, movieId).Some? ==> GetLink(links, movieId).value in GetLinks(links, 0, |links|)
  {
    PageWhole(links, |links|);
  }

  /** `get_link_count`: the number of rows, which bounds every listing. */
  function GetLinkCount(links: seq<Link>): (n: nat)
    ensures forall skip: nat, limit: nat :: |GetLinks(links, skip, limit)| <= n
    ensures n == |GetLinks(links, 0, n)|
    ensures GetLinks(links, 0, n) == links
  {
    PageWhole(links, |links|);
    |links|
  }

  /** The movie-id column of the links table and of the movies table. */
  const LinkMovieId := (x: Link) => x.movieId
  const MovieMovieId := (m: Movies.Movie) => m.movieId

  /** Every link's movie is in the movies table. */
  ghost predicate LinksReferToMovies(movies: seq<Movies.Movie>, links: seq<Link>) {
    forall l :: l in links ==> exists m :: m in movies && m.movieId == l.movieId
  }

  lemma LinkIdsAreMovieIds(movies: seq<Movies.Movie>, links: seq<Link>)
    requires LinksReferToMovies(movies, links)
    ensures Elements(Column(links, LinkMovieId)) <= Elements(Column(movies, MovieMovieId))
  {
    forall id | id in Elements(Column(links, LinkMovieId)) ensures id in Elements(Column(movies, MovieMovieId)) {
      var i :| 0 <= i < |links| && Column(links, LinkMovieId)[i] == id;
      assert links[i] in links;
      var m :| m in movies && m.movieId == links[i].movieId;
      var j :| 0 <= j < |movies| && movies[j] == m;
      assert Column(movies, MovieMovieId)[j] == id;
    }
  }

  /**
    When no two links share a movie id and every link's movie is in the
    movies table, there are no more links than movies.
   */
  lemma LinkCountAtMostMovieCount(movies: seq<Movies.Movie>, links: seq<Link>)
    requires Distinct(Column(links, LinkMovieId))
    requires LinksReferToMovies(movies, links)
    ensures GetLinkCount(links) <= Movies.GetMovieCount(movies)
  {
    DistinctElements(Column(links, LinkMovieId));
    LinkIdsAreMovieIds(movies, links);
    SubsetCardinality(Elements(Column(links, LinkMovieId)), Elements(Column(movies, MovieMovieId)));
  }
}
