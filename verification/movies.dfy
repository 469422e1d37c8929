/**
  Queries on the movies table: lookup by id, the filtered and paginated
  listing, and the row count.
 */
module Movies {
  import opened Wrappers
  import opened Presence
  import opened Tables
  import opened Text

  /** A row of the movies table; `genres` is the `|`-delimited genre list as one string. */
  datatype Movie = Movie(movieId: int, title: string, genres: string)

  function IdIs(movieId: int): Movie -> bool {
    (m: Movie) => m.movieId == movieId
  }

  /** `get_movie`: the first movie whose id is `movieId`, or `None` when there is none. */
  function GetMovie(movies: seq<Movie>, movieId: int): (r: Option<Movie>)
    ensures r.Some? ==> r.value in movies && r.value.movieId == movieId
    ensures r.Some? ==> IsFirstMatch(movies, IdIs(movieId), r.value)
    ensures r.None? <==> forall m :: m in movies ==> m.movieId != movieId
  {
    FirstMatch(movies, IdIs(movieId))
  }

  /** The title filter; it accepts every movie when no title is given. */
  function TitleFilter(title: Option<string>): Movie -> bool {
    (m: Movie) => title.None? || ContainsIgnoreCase(m.title, title.value)
  }

  /** The genre filter: a substring test on the whole genre list, not a test per genre. */
  function GenreFilter(genre: Option<string>): Movie -> bool {
    (m: Movie) => genre.None? || ContainsIgnoreCase(m.genres, genre.value)
  }

  /**
    `get_movies`: each filter is applied only when its value is truthy, so an
    absent or empty title or genre filters nothing; the window is taken after
    filtering.
   */
  function GetMovies(movies: seq<Movie>, skip: nat, limit: nat, title: Option<string>, genre: Option<string>)
    : (r: seq<Movie>)
    ensures |r| <= limit && |r| <= |movies|
    ensures forall m :: m in r ==> m in movies
    ensures TruthyString(title) ==> forall m :: m in r ==> ContainsIgnoreCase(m.title, title.value)
    ensures TruthyString(genre) ==> forall m :: m in r ==> ContainsIgnoreCase(m.genres, genre.value)
  {
    var byTitle := Where(movies, TruthyString(title), TitleFilter(title));
    var byGenre := Where(byTitle, TruthyString(genre), GenreFilter(genre));
    var r := Page(byGenre, skip, limit);
    assert forall i :: 0 <= i < |r| ==> r[i] in byGenre;
    r
  }

  /** The conditions a movie must meet to be listed, with each filter's presence test. */
  predicate MovieMatches(m: Movie, title: Option<string>, genre: Option<string>) {
    && (TruthyString(title) ==> ContainsIgnoreCase(m.title, title.value))
    && (TruthyString(genre) ==> ContainsIgnoreCase(m.genres, genre.value))
  }

  function MovieFilter(title: Option<string>, genre: Option<string>): Movie -> bool {
    (m: Movie) => MovieMatches(m, title, genre)
  }

  /** The listing is the window `[skip, skip + limit)` of the movies that meet every active filter. */
  lemma GetMoviesWindow(movies: seq<Movie>, skip: nat, limit: nat, title: Option<string>, genre: Option<string>)
    ensures GetMovies(movies, skip, limit, title, genre) == Page(Filter(movies, MovieFilter(title, genre)), skip, limit)
  {
    var t, g := TruthyString(title), TruthyString(genre);
    WhereThenWhere(movies, t, TitleFilter(title), g, GenreFilter(genre));
    FilterCongruent(movies, And(When(t, TitleFilter(title)), When(g, GenreFilter(genre))), MovieFilter(title, genre));
  }

  /** Listed movies appear in table order. */
  lemma GetMoviesInTableOrder(movies: seq<Movie>, skip: nat, limit: nat, title: Option<string>, genre: Option<string>)
    ensures IsSubsequence(GetMovies(movies, skip, limit, title, genre), movies)
  {
    var matching := Filter(movies, MovieFilter(title, genre));
    GetMoviesWindow(movies, skip, limit, title, genre);
    SubsequenceTransitive(Page(matching, skip, limit), matching, movies);
  }

  /** A window large enough for the whole table lists every matching movie and nothing else. */
  lemma GetMoviesComplete(movies: seq<Movie>, limit: nat, title: Option<string>, genre: Option<string>, m: Movie)
    requires limit >= |movies|
    ensures m in GetMovies(movies, 0, limit, title, genre) <==> m in movies && MovieMatches(m, title, genre)
  {
    GetMoviesWindow(movies, 0, limit, title, genre);
    PageWhole(Filter(movies, MovieFilter(title, genre)), limit);
  }

  lemma EveryGetMoviesWindow(movies: seq<Movie>, title: Option<string>, genre: Option<string>)
    ensures forall sk: nat, l: nat ::
              GetMovies(movies, sk, l, title, genre) == Page(Filter(movies, MovieFilter(title, genre)), sk, l)
  {
    forall sk: nat, l: nat {
      GetMoviesWindow(movies, sk, l, title, genre);
    }
  }

  /** Consecutive pages with the same filters concatenate to the page that spans both. */
  lemma GetMoviesCompose(movies: seq<Movie>, skip: nat, a: nat, b: nat, title: Option<string>, genre: Option<string>)
    ensures GetMovies(movies, skip, a, title, genre) + GetMovies(movies, skip + a, b, title, genre)
         == GetMovies(movies, skip, a + b, title, genre)
  {
    var matching := Filter(movies, MovieFilter(title, genre));
    var listing := (sk: nat, l: nat) => GetMovies(movies, sk, l, title, genre);
    EveryGetMoviesWindow(movies, title, genre);
    ListingCompose(listing, matching, skip, a, b);
  }

  /** With no title and no genre, or empty ones, the listing is a window of the whole table. */
  lemma GetMoviesUnfiltered(movies: seq<Movie>, skip: nat, limit: nat, title: Option<string>, genre: Option<string>)
    requires title == None || title == Some("")
    requires genre == None || genre == Some("")
    ensures GetMovies(movies, skip, limit, title, genre) == Page(movies, skip, limit)
    ensures |GetMovies(movies, skip, limit, title, genre)| == if skip >= |movies| then 0 else Min(limit, |movies| - skip)
  {
  }

  /**
    An empty title or genre would keep every movie even if it were applied, so
    skipping it under `if title:` / `if genre:` changes no listing.
   */
  lemma EmptySearchKeepsAll(movies: seq<Movie>)
    ensures Filter(movies, TitleFilter(Some(""))) == movies
    ensures Filter(movies, GenreFilter(Some(""))) == movies
  {
    FilterKeepsAll(movies, TitleFilter(Some("")));
    FilterKeepsAll(movies, GenreFilter(Some("")));
  }

  /** `get_movie_count`: the number of rows, which bounds every listing whatever its filters. */
  function GetMovieCount(movies: seq<Movie>): (n: nat)
    ensures forall skip: nat, limit: nat, title, genre :: |GetMovies(movies, skip, limit, title, genre)| <= n
    ensures n == |GetMovies(movies, 0, n, None, None)|
  {
    |movies|
  }

  lemma ToyInToyStory()
    ensures ContainsIgnoreCase("Toy Story (1995)", "toy")
  {
    var hay, needle := "Toy Story (1995)", "toy";
    assert hay[0] == 'T' && hay[1] == 'o' && hay[2] == 'y';
    assert SameIgnoringCase(hay[0], needle[0]);
    PrefixIgnoringCaseContained(hay, needle);
  }

  lemma NoToyInJumanji()
    ensures !ContainsIgnoreCase("Jumanji (1995)", "toy")
  {
    assert 't' !in "Jumanji (1995)" && 'T' !in "Jumanji (1995)";
    MissingLetterNotContained("Jumanji (1995)", "toy");
  }

  /** A title search over two movies keeps the one whose title contains the needle. */
  lemma TitleSearchOfTwo(a: Movie, b: Movie, needle: string)
    requires |needle| > 0
    requires ContainsIgnoreCase(a.title, needle) && !ContainsIgnoreCase(b.title, needle)
    ensures GetMovies([a, b], 0, 100, Some(needle), None) == [a]
  {
    GetMoviesWindow([a, b], 0, 100, Some(needle), None);
    assert [a, b][1..] == [b];
    assert Filter([b], MovieFilter(Some(needle), None)) == [];
  }

  /** Searching titles for `toy` finds "Toy Story (1995)" and not "Jumanji (1995)". */
  lemma ToyStoryExample()
    ensures var toyStory := Movie(1, "Toy Story (1995)", "Adventure|Animation|Children|Comedy|Fantasy");
            var jumanji := Movie(2, "Jumanji (1995)", "Adventure|Children|Fantasy");
            GetMovies([toyStory, jumanji], 0, 100, Some("toy"), None) == [toyStory]
  {
    ToyInToyStory();
    NoToyInJumanji();
    TitleSearchOfTwo(Movie(1, "Toy Story (1995)", "Adventure|Animation|Children|Comedy|Fantasy"),
                     Movie(2, "Jumanji (1995)", "Adventure|Children|Fantasy"), "toy");
  }
}
