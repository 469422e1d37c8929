/**
  Queries on the tags table: lookup by (user, movie, tag text), the filtered
  and paginated listing, and the row count.

  Unlike the ratings listing, the tags listing tests its optional filters with
  `is not None`, so a movie id or user id of zero is a real filter value.
 */
module Tags {
  import opened Wrappers
  import opened Presence
  import opened Tables

  /** A row of the tags table; the tag text is part of the row's identity. */
  datatype Tag = Tag(userId: int, movieId: int, tag: string, timestamp: int)

  function KeyIs(userId: int, movieId: int, tagText: string): Tag -> bool {
    (x: Tag) => x.userId == userId && x.movieId == movieId && x.tag == tagText
  }

  /** `get_tag`: the first tag matching user, movie and text exactly (case-sensitive), or `None`. */
  function GetTag(tags: seq<Tag>, userId: int, movieId: int, tagText: string): (r: Option<Tag>)
    ensures r.Some? ==> r.value in tags && r.value.userId == userId && r.value.movieId == movieId && r.value.tag == tagText
    ensures r.Some? ==> IsFirstMatch(tags, KeyIs(userId, movieId, tagText), r.value)
    ensures r.None? <==> forall x :: x in tags ==> !(x.userId == userId && x.movieId == movieId && x.tag == tagText)
  {
    FirstMatch(tags, KeyIs(userId, movieId, tagText))
  }

  function MovieIdFilter(movieId: Option<int>): Tag -> bool {
    (x: Tag) => movieId.None? || x.movieId == movieId.value
  }

  function UserIdFilter(userId: Option<int>): Tag -> bool {
    (x: Tag) => userId.None? || x.userId == userId.value
  }

  /** `get_tags`: each filter is applied whenever its value is supplied. */
  function GetTags(tags: seq<Tag>, skip: nat, limit: nat, movieId: Option<int>, userId: Option<int>): (r: seq<Tag>)
    ensures |r| <= limit && |r| <= |tags|
    ensures forall x :: x in r ==> x in tags
    ensures movieId.Some? ==> forall x :: x in r ==> x.movieId == movieId.value
    ensures userId.Some? ==> forall x :: x in r ==> x.userId == userId.value
  {
    var byMovie := Where(tags, IsNotNone(movieId), MovieIdFilter(movieId));
    var byUser := Where(byMovie, IsNotNone(userId), UserIdFilter(userId));
    var r := Page(byUser, skip, limit);
    assert forall i :: 0 <= i < |r| ==> r[i] in byUser;
    r
  }

  /** The conditions a tag must meet to be listed. */
  predicate TagMatches(x: Tag, movieId: Option<int>, userId: Option<int>) {
    && (movieId.Some? ==> x.movieId == movieId.value)
    && (userId.Some? ==> x.userId == userId.value)
  }

  function TagFilter(movieId: Option<int>, userId: Option<int>): Tag -> bool {
    (x: Tag) => TagMatches(x, movieId, userId)
  }

  /** The listing is the window `[skip, skip + limit)` of the tags that meet every supplied filter. */
  lemma GetTagsWindow(tags: seq<Tag>, skip: nat, limit: nat, movieId: Option<int>, userId: Option<int>)
    ensures GetTags(tags, skip, limit, movieId, userId) == Page(Filter(tags, TagFilter(movieId, userId)), skip, limit)
  {
    var m, u := IsNotNone(movieId), IsNotNone(userId);
    WhereThenWhere(tags, m, MovieIdFilter(movieId), u, UserIdFilter(userId));
    FilterCongruent(tags, And(When(m, MovieIdFilter(movieId)), When(u, UserIdFilter(userId))), TagFilter(movieId, userId));
  }

  lemma EveryGetTagsWindow(tags: seq<Tag>, movieId: Option<int>, userId: Option<int>)
    ensures forall sk: nat, l: nat ::
              GetTags(tags, sk, l, movieId, userId) == Page(Filter(tags, TagFilter(movieId, userId)), sk, l)
  {
    forall sk: nat, l: nat {
      GetTagsWindow(tags, sk, l, movieId, userId);
    }
  }

  /** Listed tags appear in table order. */
  lemma GetTagsInTableOrder(tags: seq<Tag>, skip: nat, limit: nat, movieId: Option<int>, userId: Option<int>)
    ensures IsSubsequence(GetTags(tags, skip, limit, movieId, userId), tags)
  {
    var matching := Filter(tags, TagFilter(movieId, userId));
    GetTagsWindow(tags, skip, limit, movieId, userId);
    SubsequenceTransitive(Page(matching, skip, limit), matching, tags);
  }

  /** Consecutive pages with the same filters concatenate to the page that spans both. */
  lemma GetTagsCompose(tags: seq<Tag>, skip: nat, a: nat, b: nat, movieId: Option<int>, userId: Option<int>)
    ensures GetTags(tags, skip, a, movieId, userId) + GetTags(tags, skip + a, b, movieId, userId)
         == GetTags(tags, skip, a + b, movieId, userId)
  {
    var matching := Filter(tags, TagFilter(movieId, userId));
    var listing := (sk: nat, l: nat) => GetTags(tags, sk, l, movieId, userId);
    EveryGetTagsWindow(tags, movieId, userId);
    ListingCompose(listing, matching, skip, a, b);
  }

  /** A window large enough for the whole table lists every matching tag and nothing else. */
  lemma GetTagsComplete(tags: seq<Tag>, limit: nat, movieId: Option<int>, userId: Option<int>, x: Tag)
    requires limit >= |tags|
    ensures x in GetTags(tags, 0, limit, movieId, userId) <==> x in tags && TagMatches(x, movieId, userId)
  {
    GetTagsWindow(tags, 0, limit, movieId, userId);
    PageWhole(Filter(tags, TagFilter(movieId, userId)), limit);
  }

  /** Zero is a real filter value here: movie 0 has no tags in a table of movie 5's. */
  lemma GetTagsZeroIsFilter()
    ensures GetTags([Tag(1, 5, "funny", 1139045764)], 0, 100, Some(0), None) == []
  {
  }

  function TextIs(tagText: string): Tag -> bool {
    (x: Tag) => x.tag == tagText
  }

  /**
    The single lookup is the first tag with that text among the complete
    listing for the same movie and user.
   */
  lemma GetTagIsListed(tags: seq<Tag>, userId: int, movieId: int, tagText: string)
    ensures GetTag(tags, userId, movieId, tagText)
         == FirstMatch(GetTags(tags, 0, |tags|, Some(movieId), Some(userId)), TextIs(tagText))
  {
    var p := TagFilter(Some(movieId), Some(userId));
    GetTagsWindow(tags, 0, |tags|, Some(movieId), Some(userId));
    PageWhole(Filter(tags, p), |tags|);
    FirstMatchOfFilter(tags, p, TextIs(tagText));
    FirstMatchCongruent(tags, And(p, TextIs(tagText)), KeyIs(userId, movieId, tagText));
  }

  /** `get_tag_count`: the number of rows, which bounds every listing whatever its filters. */
  function GetTagCount(tags: seq<Tag>): (n: nat)
    ensures forall skip: nat, limit: nat, movieId, userId :: |GetTags(tags, skip, limit, movieId, userId)| <= n
    ensures n == |GetTags(tags, 0, n, None, None)|
  {
    |tags|
  }
}
