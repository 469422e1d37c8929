/**
  Queries on the ratings table: lookup by (user, movie), the filtered and
  paginated listing, and the row count.

  The listing applies each of its three optional filters only when the value
  is truthy, so a movie id, user id or minimum rating of zero is the same as
  leaving the filter out.  `GetRatingsByPresence` is the listing with an
  explicit presence test instead, the behaviour the optional parameters
  evidently intend.
 */
module Ratings {
  import opened Wrappers
  import opened Presence
  import opened Tables

  /** A row of the ratings table; `rating` is a score such as 4.5, `timestamp` in epoch seconds. */
  datatype Rating = Rating(userId: int, movieId: int, rating: real, timestamp: int)

  function KeyIs(userId: int, movieId: int): Rating -> bool {
    (x: Rating) => x.userId == userId && x.movieId == movieId
  }

  /** `get_rating`: the first rating by `userId` of `movieId`, or `None` when there is none. */
  function GetRating(ratings: seq<Rating>, userId: int, movieId: int): (r: Option<Rating>)
    ensures r.Some? ==> r.value in ratings && r.value.userId == userId && r.value.movieId == movieId
    ensures r.Some? ==> IsFirstMatch(ratings, KeyIs(userId, movieId), r.value)
    ensures r.None? <==> forall x :: x in ratings ==> !(x.userId == userId && x.movieId == movieId)
  {
    FirstMatch(ratings, KeyIs(userId, movieId))
  }

  function MovieIdFilter(movieId: Option<int>): Rating -> bool {
    (x: Rating) => movieId.None? || x.movieId == movieId.value
  }

  function UserIdFilter(userId: Option<int>): Rating -> bool {
    (x: Rating) => userId.None? || x.userId == userId.value
  }

  /** The threshold is inclusive. */
  function MinRatingFilter(minRating: Option<real>): Rating -> bool {
    (x: Rating) => minRating.None? || x.rating >= minRating.value
  }

  /** `get_ratings` as written: every filter is guarded by a truthiness test. */
  function GetRatings(ratings: seq<Rating>, skip: nat, limit: nat,
                      movieId: Option<int>, userId: Option<int>, minRating: Option<real>): (r: seq<Rating>)
    ensures |r| <= limit && |r| <= |ratings|
    ensures forall x :: x in r ==> x in ratings
    ensures TruthyInt(movieId) ==> forall x :: x in r ==> x.movieId == movieId.value
    ensures TruthyInt(userId) ==> forall x :: x in r ==> x.userId == userId.value
    ensures TruthyReal(minRating) ==> forall x :: x in r ==> x.rating >= minRating.value
  {
    var byMovie := Where(ratings, TruthyInt(movieId), MovieIdFilter(movieId));
    var byUser := Where(byMovie, TruthyInt(userId), UserIdFilter(userId));
    var byScore := Where(byUser, TruthyReal(minRating), MinRatingFilter(minRating));
    var r := Page(byScore, skip, limit);
    assert forall i :: 0 <= i < |r| ==> r[i] in byScore;
    r
  }

  /** The conditions a rating must meet to be listed by `GetRatings`. */
  predicate RatingMatches(x: Rating, movieId: Option<int>, userId: Option<int>, minRating: Option<real>) {
    && (TruthyInt(movieId) ==> x.movieId == movieId.value)
    && (TruthyInt(userId) ==> x.userId == userId.value)
    && (TruthyReal(minRating) ==> x.rating >= minRating.value)
  }

  function RatingFilter(movieId: Option<int>, userId: Option<int>, minRating: Option<real>): Rating -> bool {
    (x: Rating) => RatingMatches(x, movieId, userId, minRating)
  }

  /** The listing is the window `[skip, skip + limit)` of the ratings that meet every active filter. */
  lemma GetRatingsWindow(ratings: seq<Rating>, skip: nat, limit: nat,
                         movieId: Option<int>, userId: Option<int>, minRating: Option<real>)
    ensures GetRatings(ratings, skip, limit, movieId, userId, minRating)
         == Page(Filter(ratings, RatingFilter(movieId, userId, minRating)), skip, limit)
  {
    var m, u, s := TruthyInt(movieId), TruthyInt(userId), TruthyReal(minRating);
    var byMovieAndUser := Where(Where(ratings, m, MovieIdFilter(movieId)), u, UserIdFilter(userId));
    var both := And(When(m, MovieIdFilter(movieId)), When(u, UserIdFilter(userId)));
    WhereThenWhere(ratings, m, MovieIdFilter(movieId), u, UserIdFilter(userId));
    WhereIsFilter(byMovieAndUser, s, MinRatingFilter(minRating));
    FilterThenFilter(ratings, both, When(s, MinRatingFilter(minRating)));
    FilterCongruent(ratings, And(both, When(s, MinRatingFilter(minRating))), RatingFilter(movieId, userId, minRating));
  }

  /** Listed ratings appear in table order. */
  lemma GetRatingsInTableOrder(ratings: seq<Rating>, skip: nat, limit: nat,
                               movieId: Option<int>, userId: Option<int>, minRating: Option<real>)
    ensures IsSubsequence(GetRatings(ratings, skip, limit, movieId, userId, minRating), ratings)
  {
    var matching := Filter(ratings, RatingFilter(movieId, userId, minRating));
    GetRatingsWindow(ratings, skip, limit, movieId, userId, minRating);
    SubsequenceTransitive(Page(matching, skip, limit), matching, ratings);
  }

  lemma EveryGetRatingsWindow(ratings: seq<Rating>, movieId: Option<int>, userId: Option<int>, minRating: Option<real>)
    ensures forall sk: nat, l: nat ::
              GetRatings(ratings, sk, l, movieId, userId, minRating)
                == Page(Filter(ratings, RatingFilter(movieId, userId, minRating)), sk, l)
  {
    forall sk: nat, l: nat {
      GetRatingsWindow(ratings, sk, l, movieId, userId, minRating);
    }
  }

  /** Consecutive pages with the same filters concatenate to the page that spans both. */
  lemma GetRatingsCompose(ratings: seq<Rating>, skip: nat, a: nat, b: nat,
                          movieId: Option<int>, userId: Option<int>, minRating: Option<real>)
    ensures GetRatings(ratings, skip, a, movieId, userId, minRating)
          + GetRatings(ratings, skip + a, b, movieId, userId, minRating)
         == GetRatings(ratings, skip, a + b, movieId, userId, minRating)
  {
    var matching := Filter(ratings, RatingFilter(movieId, userId, minRating));
    var listing := (sk: nat, l: nat) => GetRatings(ratings, sk, l, movieId, userId, minRating);
    EveryGetRatingsWindow(ratings, movieId, userId, minRating);
    ListingCompose(listing, matching, skip, a, b);
  }

  /** A window large enough for the whole table lists every matching rating and nothing else. */
  lemma GetRatingsComplete(ratings: seq<Rating>, limit: nat,
                           movieId: Option<int>, userId: Option<int>, minRating: Option<real>, x: Rating)
    requires limit >= |ratings|
    ensures x in GetRatings(ratings, 0, limit, movieId, userId, minRating)
        <==> x in ratings && RatingMatches(x, movieId, userId, minRating)
  {
    GetRatingsWindow(ratings, 0, limit, movieId, userId, minRating);
    PageWhole(Filter(ratings, RatingFilter(movieId, userId, minRating)), limit);
  }

  /** A movie id, user id or minimum rating of zero lists exactly what leaving it out lists. */
  lemma GetRatingsZeroIsAbsent(ratings: seq<Rating>, skip: nat, limit: nat,
                               movieId: Option<int>, userId: Option<int>, minRating: Option<real>)
    ensures GetRatings(ratings, skip, limit, Some(0), userId, minRating)
         == GetRatings(ratings, skip, limit, None, userId, minRating)
    ensures GetRatings(ratings, skip, limit, movieId, Some(0), minRating)
         == GetRatings(ratings, skip, limit, movieId, None, minRating)
    ensures GetRatings(ratings, skip, limit, movieId, userId, Some(0.0))
         == GetRatings(ratings, skip, limit, movieId, userId, None)
  {
  }

  /** Asking for the ratings of movie 0 lists a rating of movie 5. */
  lemma GetRatingsZeroIdCounterexample()
    ensures var row := Rating(1, 5, 4.0, 964982703);
            GetRatings([row], 0, 100, Some(0), None, None) == [row]
  {
  }

  /**
    The listing with explicit presence tests: a filter is applied whenever its
    value is supplied, zero included.
   */
  function GetRatingsByPresence(ratings: seq<Rating>, skip: nat, limit: nat,
                                movieId: Option<int>, userId: Option<int>, minRating: Option<real>)
    : (r: seq<Rating>)
    ensures |r| <= limit && |r| <= |ratings|
    ensures forall x :: x in r ==> x in ratings
    ensures movieId.Some? ==> forall x :: x in r ==> x.movieId == movieId.value
    ensures userId.Some? ==> forall x :: x in r ==> x.userId == userId.value
    ensures minRating.Some? ==> forall x :: x in r ==> x.rating >= minRating.value
  {
    var byMovie := Where(ratings, IsNotNone(movieId), MovieIdFilter(movieId));
    var byUser := Where(byMovie, IsNotNone(userId), UserIdFilter(userId));
    var byScore := Where(byUser, IsNotNone(minRating), MinRatingFilter(minRating));
    var r := Page(byScore, skip, limit);
    assert forall i :: 0 <= i < |r| ==> r[i] in byScore;
    r
  }

  /** Supplied values are never ignored: movie 0 has no ratings in a table of movie 5's. */
  lemma GetRatingsByPresenceZeroId()
    ensures GetRatingsByPresence([Rating(1, 5, 4.0, 964982703)], 0, 100, Some(0), None, None) == []
  {
  }

  /**
    The two listings differ only on zero: with no zero id, and with a zero
    minimum only over non-negative scores, they return the same rows.
   */
  lemma GetRatingsAgreesAwayFromZero(ratings: seq<Rating>, skip: nat, limit: nat,
                                     movieId: Option<int>, userId: Option<int>, minRating: Option<real>)
    requires movieId != Some(0) && userId != Some(0)
    requires minRating == Some(0.0) ==> forall x :: x in ratings ==> x.rating >= 0.0
    ensures GetRatings(ratings, skip, limit, movieId, userId, minRating)
         == GetRatingsByPresence(ratings, skip, limit, movieId, userId, minRating)
  {
    if minRating == Some(0.0) {
      var byUser := Where(Where(ratings, IsNotNone(movieId), MovieIdFilter(movieId)), IsNotNone(userId), UserIdFilter(userId));
      FilterKeepsAll(byUser, MinRatingFilter(minRating));
    }
  }

  function ByPresenceFilter(movieId: Option<int>, userId: Option<int>, minRating: Option<real>): Rating -> bool {
    And(And(When(IsNotNone(movieId), MovieIdFilter(movieId)), When(IsNotNone(userId), UserIdFilter(userId))),
        When(IsNotNone(minRating), MinRatingFilter(minRating)))
  }

  lemma GetRatingsByPresenceWindow(ratings: seq<Rating>, skip: nat, limit: nat,
                                   movieId: Option<int>, userId: Option<int>, minRating: Option<real>)
    ensures GetRatingsByPresence(ratings, skip, limit, movieId, userId, minRating)
         == Page(Filter(ratings, ByPresenceFilter(movieId, userId, minRating)), skip, limit)
  {
    var m, u, s := IsNotNone(movieId), IsNotNone(userId), IsNotNone(minRating);
    var byMovieAndUser := Where(Where(ratings, m, MovieIdFilter(movieId)), u, UserIdFilter(userId));
    var both := And(When(m, MovieIdFilter(movieId)), When(u, UserIdFilter(userId)));
    WhereThenWhere(ratings, m, MovieIdFilter(movieId), u, UserIdFilter(userId));
    WhereIsFilter(byMovieAndUser, s, MinRatingFilter(minRating));
    FilterThenFilter(ratings, both, When(s, MinRatingFilter(minRating)));
  }

  /**
    The single lookup is the first row of the one-row listing filtered by the
    same user and movie, for every pair of ids.
   */
  lemma GetRatingIsFirstListed(ratings: seq<Rating>, userId: int, movieId: int)
    ensures var page := GetRatingsByPresence(ratings, 0, 1, Some(movieId), Some(userId), None);
            GetRating(ratings, userId, movieId) == if |page| == 0 then None else Some(page[0])
  {
    var p := ByPresenceFilter(Some(movieId), Some(userId), None);
    GetRatingsByPresenceWindow(ratings, 0, 1, Some(movieId), Some(userId), None);
    FilterCongruent(ratings, KeyIs(userId, movieId), p);
    FirstMatchIsFilterHead(ratings, KeyIs(userId, movieId));
  }

  /** `get_rating_count`: the number of rows, which bounds every listing whatever its filters. */
  function GetRatingCount(ratings: seq<Rating>): (n: nat)
    ensures forall skip: nat, limit: nat, movieId, userId, minRating ::
      |GetRatings(ratings, skip, limit, movieId, userId, minRating)| <= n
    ensures n == |GetRatings(ratings, 0, n, None, None, None)|
  {
    |ratings|
  }

  /** Lookups over one rating: user 1 rated movie 1 with 4.0 and did not rate movie 2. */
  lemma ToyStoryRatingExample()
    ensures var row := Rating(1, 1, 4.0, 964982703);
            GetRating([row], 1, 1) == Some(row) && GetRating([row], 1, 2) == None
  {
  }
}
