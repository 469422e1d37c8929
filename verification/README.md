# Cinema API query layer, in Dafny

This project models the query layer of a read-only movie-ratings REST service
(`api/query_helpers.py`). The service holds four tables loaded once from the
MovieLens dataset: movies, ratings, tags, and links to external movie
databases. Every query function is a thin SQLAlchemy call. Each one reduces to
one of three list operations:

- a **single lookup** (`get_movie`, `get_rating`, `get_tag`, `get_link`) returns
  the first row that matches every key field, or nothing;
- a **listing** (`get_movies`, `get_ratings`, `get_tags`, `get_links`) filters by
  its optional parameters, then drops `skip` rows, then keeps at most `limit`;
- a **count** (`get_*_count`) returns the number of rows in the whole table.

Each table is a `seq` of immutable rows in a fixed *table order*. That order
stands in for the unspecified order of a query without `ORDER BY`. The
database session is left out of every signature.

Modules:

- `Wrappers` (`wrappers.dfy`): `Option`, used for `None` parameters and for
  lookups that find no row.
- `Presence` (`presence.dfy`): the two presence tests the source applies to
  optional filters. One is Python truthiness (`if value:`), where `None`, `0`,
  `0.0` and `""` all mean "no filter". The other is `is not None`.
- `Tables` (`tables.dfy`): the generic operations.
  - `Filter` models a WHERE clause.
  - `Where` models `if cond: query = query.filter(p)`.
  - `Page` models `OFFSET`/`LIMIT`.
  - `FirstMatch` models `.first()`.
  - `IsSubsequence` states that rows stay in table order.
  - The module also holds the lemmas that relate these operations.
- `Text` (`text.dfy`): `ilike('%x%')` as a case-insensitive substring test.
  Case folding is ASCII-only, as SQLite's `lower()` does it.
- `Movies`, `Ratings`, `Tags`, `Links` (one file each): one row datatype per
  table, plus that table's queries and their properties.

Each listing is written as the source writes it: a chain of conditional
filters, with the presence test spelled out, followed by the window. A
`...Window` lemma then proves that the chain equals one filter by the
conjunction of the active conditions, followed by the window. Ordering,
completeness and the composition of consecutive pages all follow from that
lemma.

The two presence tests give a provable difference:

- In `get_ratings`, a movie id, user id or minimum rating of zero means "no
  filter" (`Ratings.GetRatingsZeroIsAbsent`).
- In `get_tags`, zero is a real filter value (`Tags.GetTagsZeroIsFilter`).

## Model

| member | source | states |
|---|---|---|
| `Presence.TruthyInt` | api/query_helpers.py:40-43 | `if movie_id:` / `if user_id:` hold exactly when the id is supplied and is not 0. |
| `Presence.TruthyReal` | api/query_helpers.py:44 | `if min_rating:` holds exactly when the minimum is supplied and is not 0.0. |
| `Presence.TruthyString` | api/query_helpers.py:18-21 | `if title:` / `if genre:` hold exactly when the term is supplied and is not empty. |
| `Presence.IsNotNone` | api/query_helpers.py:74-77 | `is not None` is false for `None` alone, so 0 passes it. |
| `Tables.Filter` | api/query_helpers.py:18-21 | A WHERE returns a row exactly when the table holds it and the predicate accepts it. It keeps the rows in table order and returns no more rows than the table has. |
| `Tables.FilterCounts` | api/query_helpers.py:18-21 | A WHERE keeps every copy of an accepted row and drops every copy of a rejected one. With the table-order property, this fixes the result exactly. |
| `Tables.Where` | api/query_helpers.py:40-45 | A guarded `.filter()` keeps the rows that pass the predicate when the guard holds. Otherwise it leaves the query unchanged. |
| `Tables.FilterThenFilter` | api/query_helpers.py:18-21 | Two chained `.filter()` calls select the same rows, in the same order, as one filter by their conjunction. |
| `Tables.WhereThenWhere` | api/query_helpers.py:74-77 | Two chained guarded filters equal one filter by the conjunction of the guarded conditions. |
| `Tables.Page` | api/query_helpers.py:23 | `offset(skip).limit(limit)` returns at most `limit` rows. Row i of the result is row skip+i of the input. It returns nothing when `skip` is past the end, and the result is a subsequence of the input. |
| `Tables.PageCompose` | api/query_helpers.py:23 | The window (skip, a) followed by the window (skip+a, b) equals the window (skip, a+b). |
| `Tables.FirstMatch` | api/query_helpers.py:11 | `.first()` returns `None` exactly when no row matches. Otherwise it returns a matching row of the table, and every earlier row fails the predicate. |
| `Tables.FirstMatchIsFilterHead` | api/query_helpers.py:11 | `.first()` on a filter returns the head of the list that the same filter selects. |
| `Text.Lower` | api/query_helpers.py:19 | Case folding of one character: a capital A-Z becomes the small letter 32 code points later, and every other character is kept. No capital is left. |
| `Text.LowerString` | api/query_helpers.py:19 | Lower-casing keeps the length, lower-cases each character, and leaves no ASCII capital. |
| `Text.LowerStringIdempotent` | api/query_helpers.py:19 | Lower-casing a string a second time changes nothing. |
| `Text.IsSubstringIffOccurs` | api/query_helpers.py:19 | The recursive `%needle%` scan succeeds exactly when the needle occurs at some position of the text. |
| `Text.ContainsIgnoreCase` | api/query_helpers.py:19-21 | `ilike('%needle%')` holds for an empty needle in every text. It never holds for a needle longer than the text. |
| `Text.ContainsIgnoreCaseIff` | api/query_helpers.py:19-21 | `ilike('%needle%')` holds exactly when some window of the text equals the needle character by character, up to ASCII case. |
| `Text.ContainsIgnoresNeedleCase` | api/query_helpers.py:19 | The capitalisation of the search term does not change the answer. |
| `Movies.GetMovie` | api/query_helpers.py:9-11 | The result is `None` exactly when no movie has the id. Otherwise it is the first movie in table order with that id. |
| `Movies.GetMovies` | api/query_helpers.py:14-23 | The result holds at most `limit` rows, all from the table. With a non-empty title, every result contains it in its title, ignoring case. With a non-empty genre, every result contains it in its genre list. |
| `Movies.GetMoviesWindow` | api/query_helpers.py:14-23 | The listing is the (skip, limit) window of the movies that meet every truthy filter. |
| `Movies.GetMoviesInTableOrder` | api/query_helpers.py:23 | Listed movies are a subsequence of the table, in table order. |
| `Movies.GetMoviesComplete` | api/query_helpers.py:18-23 | A window from 0 that covers the table lists a movie exactly when the movie is in the table and meets the filters. |
| `Movies.GetMoviesCompose` | api/query_helpers.py:23 | With the same filters, consecutive pages concatenate to the page that spans both. |
| `Movies.GetMoviesUnfiltered` | api/query_helpers.py:18-23 | With the title and genre each absent or empty, the listing is the plain window of the whole table. Its size is min(limit, rows - skip). |
| `Movies.EmptySearchKeepsAll` | api/query_helpers.py:18-21 | Applying an empty title or genre filter would keep every movie, so skipping it under `if title:` / `if genre:` changes no listing. |
| `Movies.GetMovieCount` | api/query_helpers.py:94-96 | The count bounds the size of every listing, whatever its window and filters. It equals the size of the unfiltered listing of the whole table. |
| `Movies.ToyStoryExample` | api/query_helpers.py:18-19 | Searching for `toy` over "Toy Story (1995)" and "Jumanji (1995)" returns only Toy Story. |
| `Ratings.GetRating` | api/query_helpers.py:27-32 | The result is `None` exactly when no rating has both ids. Otherwise it is the first such rating in table order. |
| `Ratings.GetRatings` | api/query_helpers.py:35-47 | The result holds at most `limit` rows, all from the table. With a truthy movie or user id, every result has that id. With a truthy minimum, every result has a score of at least that minimum. |
| `Ratings.GetRatingsWindow` | api/query_helpers.py:38-47 | The listing is the (skip, limit) window of the ratings that meet every truthy filter. |
| `Ratings.GetRatingsInTableOrder` | api/query_helpers.py:47 | Listed ratings are a subsequence of the table, in table order. |
| `Ratings.GetRatingsCompose` | api/query_helpers.py:47 | With the same filters, consecutive pages concatenate to the page that spans both. |
| `Ratings.GetRatingsComplete` | api/query_helpers.py:40-47 | A window from 0 that covers the table lists a rating exactly when it is in the table and meets the truthy filters. |
| `Ratings.GetRatingsZeroIsAbsent` | api/query_helpers.py:40-45 | A movie id of 0, a user id of 0 or a minimum of 0.0 lists exactly what leaving that filter out lists. |
| `Ratings.GetRatingsZeroIdCounterexample` | api/query_helpers.py:40-41 | Asking for the ratings of movie 0 returns a rating of movie 5. |
| `Ratings.GetRatingsByPresence` | api/query_helpers.py:35-47 | The corrected listing applies every supplied filter, zero included. With a supplied value, every result meets that filter. |
| `Ratings.GetRatingsByPresenceZeroId` | api/query_helpers.py:40-41 | With the corrected presence test, movie 0 has no ratings in a table that holds only a rating of movie 5. |
| `Ratings.GetRatingsAgreesAwayFromZero` | api/query_helpers.py:40-45 | The listing as written and the corrected listing return the same rows when no id is 0. A minimum of 0.0 is also harmless when every score is non-negative. |
| `Ratings.GetRatingIsFirstListed` | api/query_helpers.py:27-32 | For every pair of ids, the single lookup returns the first row of the one-row listing filtered by the same user and movie. |
| `Ratings.GetRatingCount` | api/query_helpers.py:99-101 | The count bounds the size of every listing, whatever its window and filters. It equals the size of the unfiltered listing of the whole table. |
| `Ratings.ToyStoryRatingExample` | api/query_helpers.py:27-32 | User 1's rating of movie 1 is found, and the lookup for movie 2 finds nothing. |
| `Tags.GetTag` | api/query_helpers.py:51-61 | The result is `None` exactly when no tag matches user, movie and text exactly. Otherwise it is the first such tag in table order. |
| `Tags.GetTags` | api/query_helpers.py:64-79 | The result holds at most `limit` rows, all from the table. With a supplied movie or user id, zero included, every result has that id. |
| `Tags.GetTagsWindow` | api/query_helpers.py:72-79 | The listing is the (skip, limit) window of the tags that meet every supplied filter. |
| `Tags.GetTagsInTableOrder` | api/query_helpers.py:79 | Listed tags are a subsequence of the table, in table order. |
| `Tags.GetTagsCompose` | api/query_helpers.py:79 | With the same filters, consecutive pages concatenate to the page that spans both. |
| `Tags.GetTagsComplete` | api/query_helpers.py:74-79 | A window from 0 that covers the table lists a tag exactly when it is in the table and meets the supplied filters. |
| `Tags.GetTagsZeroIsFilter` | api/query_helpers.py:74-75 | A movie id of 0 is applied as a filter, so a tag of movie 5 is not listed. |
| `Tags.GetTagIsListed` | api/query_helpers.py:51-61 | The single lookup returns the first tag with that text in the complete listing for the same movie and user. |
| `Tags.GetTagCount` | api/query_helpers.py:104-106 | The count bounds the size of every listing, whatever its window and filters. It equals the size of the unfiltered listing of the whole table. |
| `Links.GetLink` | api/query_helpers.py:83-85 | The result is `None` exactly when no link has the movie id. Otherwise it is the first such link in table order. |
| `Links.GetLinks` | api/query_helpers.py:88-90 | The result holds min(limit, rows - skip) rows, and none when `skip` is past the end. Row i is row skip+i of the table, and the rows stay in table order. |
| `Links.GetLinksCompose` | api/query_helpers.py:90 | Consecutive pages concatenate to the page that spans both. |
| `Links.GetLinkIsListed` | api/query_helpers.py:83-90 | A link found by the lookup appears in the complete listing. |
| `Links.GetLinkCount` | api/query_helpers.py:109-111 | The count bounds the size of every listing. It equals the size of the listing of that many rows from 0, and that listing is the whole table. |
| `Links.LinkCountAtMostMovieCount` | api/query_helpers.py:94-111 | When link movie ids are distinct and each names a movie in the movies table, the link count is at most the movie count. |

## Left out

- HTTP routing, FastAPI parameter validation, the 404 responses for missing rows and response shaping (`api/main.py`). These are framework behaviour; the analytics route only reads the four counts. Its second registration is a routing detail.
- The route-level bounds `limit <= 1000` and `0.0 <= min_rating <= 5.0` (`api/main.py`). The query functions do not demand them, so they are not preconditions here.
- Session and engine lifecycle (`api/database.py`, `get_db` in `api/main.py`): these are I/O. The database session is not a parameter; each query takes the table it reads.
- The print scripts `api/test_models.py` and `api/test_query_helpers.py`: they state no property.
- `models.py` and `schemas.py` are not part of this model. The column types come from the dataset's description: ids and timestamps are `int`, `imdbId` is an optional string and `tmdbId` an optional int.
- LIKE wildcards: `%` and `_` inside a user-supplied title or genre are wildcards in the real query. The model treats the search term as a literal substring.
- Row order: the SQL engine's order for a query without `ORDER BY` is replaced by the fixed table order.
- Negative `skip` or `limit`: `skip` and `limit` are `nat`. The routes reject a negative `skip`. A negative `limit` means "no limit" to SQLite and is not modelled.
- Integer width: ids, `skip` and `limit` are unbounded. SQLite stores signed 64-bit integers, and Python's `sqlite3` driver raises `OverflowError` for a bound value outside [-2^63, 2^63) (for example `get_movie(db, 2**63)`). That error is not modelled; such a lookup returns `None` here.
- Floating point: scores and `min_rating` are `real`, not IEEE floats, so NaN (which is truthy in Python) does not arise.
- Concurrency: the tables are immutable and the queries are pure, so none is modelled.

## Findings

| source | as written | input that shows it | evidently intended | confidence | as-written member | corrected member |
|---|---|---|---|---|---|---|
| api/query_helpers.py:40-43 | `if movie_id:` and `if user_id:` skip the filter when the id is 0 | `movie_id=0` over the one rating (user 1, movie 5, 4.0) returns that rating | apply a filter whenever its value is supplied, as `get_tags` does with `is not None`, so the result is empty | medium; not executed | `Ratings.GetRatingsZeroIdCounterexample` | `Ratings.GetRatingsByPresence` |

`Ratings.GetRatings` stays the model of the code as written.
`Ratings.GetRatingsAgreesAwayFromZero` shows that the two listings differ only
on zero. `Ratings.GetRatingIsFirstListed` relates the single lookup to the
corrected listing. That relation holds for every pair of ids, including 0.
