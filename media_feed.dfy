/** The read-only media routes: the paginated feed `GET /`, the per-creator
    feed `GET /user/:userId` and the comment list `GET /:id/comments`. The
    database is the sequence of stored media and the sequence of stored
    comments, both in insertion order; a query's `sort({ createdAt: -1 })`
    is `SortNewest`. */
module MediaFeed {
  import opened Wrappers
  import opened Text
  import opened Http
  import opened Sequences
  import opened MediaSchema

  /** A feed entry: the media document with the three fields the routes add. */
  datatype EnrichedMedia = EnrichedMedia(
    item: Media,
    commentsCount: nat,
    userRating: Option<real>,
    averageRating: real)

  /** The body of a `GET /` reply. */
  datatype FeedPage = FeedPage(media: seq<EnrichedMedia>, hasMore: bool)

  const DefaultPage := 1
  const DefaultLimit := 10

  /** `Number.parseInt(q) || d` on an optional query parameter: the default
      replaces a missing value, `NaN` and 0, the two falsy numbers. */
  function QueryNumber(q: Option<string>, d: int): (n: int)
    ensures q.None? ==> n == d
    ensures q.Some? && ParseInt(q.value) in {None, Some(0)} ==> n == d
    ensures q.Some? && ParseInt(q.value).Some? && ParseInt(q.value).value != 0 ==> n == ParseInt(q.value).value
  {
    if q.None? then d
    else
      var p := ParseInt(q.value);
      if p.None? || p.value == 0 then d else p.value
  }

  /** A positive decimal number given as a query parameter is taken as is. */
  lemma QueryNumberReadsDecimal(n: nat, d: int)
    requires n > 0
    ensures QueryNumber(Some(Decimal(n)), d) == n
  {
    var s := Decimal(n);
    assert ParseInt(s) == Some(n) by {
      ParseIntReadsDecimal(n, []);
      assert s + [] == s;
    }
  }

  /** The sort keys of the two collections. */
  function MediaTime(m: Media): int { m.createdAt }
  function CommentTime(c: Comment): int { c.createdAt }

  /** The query conditions `{ media: id }` and `{ creator: userId }`. */
  function OnMedia(id: MediaId): Comment -> bool {
    (c: Comment) => c.media == id
  }
  function ByCreator(u: UserId): Media -> bool {
    (m: Media) => m.creator == u
  }

  /** The comments stored for media `id`, in insertion order. */
  function CommentsOn(cs: seq<Comment>, id: MediaId): (r: seq<Comment>)
    ensures forall k :: 0 <= k < |r| ==> r[k].media == id
  {
    Filter(cs, OnMedia(id))
  }

  /** `CommentsOn` holds every comment on `id` and nothing else, each as
      often as it is stored. */
  lemma CommentsOnCounts(cs: seq<Comment>, id: MediaId, c: Comment)
    ensures multiset(CommentsOn(cs, id))[c] == if c.media == id then multiset(cs)[c] else 0
  {
    FilterCounts(cs, OnMedia(id), c);
  }

  /** Storing a comment adds it to the comments of its own media only. */
  lemma CommentsOnAppend(cs: seq<Comment>, c: Comment, id: MediaId)
    ensures CommentsOn(cs + [c], id) == if c.media == id then CommentsOn(cs, id) + [c] else CommentsOn(cs, id)
  {
    FilterAppend(cs, c, OnMedia(id));
    assert CommentsOn(cs, id) + [] == CommentsOn(cs, id);
  }

  /** The viewer's own rating: none without a signed-in viewer, otherwise
      the value of the first entry the viewer made (`ratings.find`), and
      none when the viewer made no entry. */
  function ViewerRating(rs: seq<Rating>, viewer: Option<UserId>): (r: Option<real>)
    ensures !SignedIn(viewer) ==> r.None?
    ensures SignedIn(viewer) ==> (r.None? <==> forall j :: 0 <= j < |rs| ==> rs[j].user != viewer.value)
    ensures r.Some? ==> exists k :: 0 <= k < |rs| && rs[k].user == viewer.value && rs[k].value == r.value
                                   && forall j :: 0 <= j < k ==> rs[j].user != viewer.value
  {
    if !SignedIn(viewer) then None
    else
      var k := RaterIndex(rs, viewer.value);
      if k < 0 then None else Some(rs[k].value)
  }

  /** With one entry per rater, the viewer's rating is the value of the
      viewer's entry, wherever it sits. */
  lemma ViewerRatingOfUniqueRater(rs: seq<Rating>, viewer: UserId, k: nat)
    requires UniqueRaters(rs) && viewer != ""
    requires k < |rs| && rs[k].user == viewer
    ensures ViewerRating(rs, Some(viewer)) == Some(rs[k].value)
  {
    var i := RaterIndex(rs, viewer);
    assert i >= 0;
    assert i == k;
  }

  /** One item of the feed with its comment count, its average rating and
      the viewer's rating. */
  function Enrich(item: Media, cs: seq<Comment>, viewer: Option<UserId>): (e: EnrichedMedia)
    ensures e.item == item
    ensures e.commentsCount == |CommentsOn(cs, item.id)| && e.commentsCount <= |cs|
    ensures item.ratings == [] ==> e.averageRating == 0.0
    ensures item.ratings != [] ==> e.averageRating * (|item.ratings| as real) == TotalRating(item.ratings)
    ensures e.userRating == ViewerRating(item.ratings, viewer)
  {
    EnrichedMedia(item, |CommentsOn(cs, item.id)|, ViewerRating(item.ratings, viewer), AverageRating(item.ratings))
  }

  /** The `media.map(...)` of both feeds: every item enriched, in order. */
  function EnrichAll(items: seq<Media>, cs: seq<Comment>, viewer: Option<UserId>): (r: seq<EnrichedMedia>)
    ensures |r| == |items|
    ensures forall k :: 0 <= k < |r| ==> r[k] == Enrich(items[k], cs, viewer)
  {
    seq(|items|, k requires 0 <= k < |items| => Enrich(items[k], cs, viewer))
  }

  /** The media documents of a list of feed entries. */
  function Items(es: seq<EnrichedMedia>): (r: seq<Media>)
    ensures |r| == |es|
    ensures forall k :: 0 <= k < |r| ==> r[k] == es[k].item
  {
    seq(|es|, k requires 0 <= k < |es| => es[k].item)
  }

  lemma ItemsOfEnrichAll(items: seq<Media>, cs: seq<Comment>, viewer: Option<UserId>)
    ensures Items(EnrichAll(items, cs, viewer)) == items
  {
  }

  /** The absolute value, as MongoDB reads a negative `limit`. */
  function Abs(n: int): nat {
    if n < 0 then -n else n
  }

  /** One page of the feed for numeric `page` and `limit`. A negative skip
      makes the database refuse the query, which the route answers with
      500; otherwise the page is the window of the newest-first order, and
      `hasMore` compares the total with `skip + limit`. */
  function FeedPageOf(all: seq<Media>, cs: seq<Comment>, page: int, limit: int,
                      viewer: Option<UserId>): (r: Result<FeedPage, HttpError>)
    ensures r.Failure? <==> (page - 1) * limit < 0
    ensures r.Failure? ==> r.error == GenericServerError
    ensures r.Success? ==> Items(r.value.media) == Window(SortNewest(all, MediaTime), (page - 1) * limit, Abs(limit))
    ensures r.Success? ==> forall k :: 0 <= k < |r.value.media| ==> r.value.media[k] == Enrich(r.value.media[k].item, cs, viewer)
    ensures r.Success? ==> (r.value.hasMore <==> |all| > (page - 1) * limit + limit)
  {
    var skip := (page - 1) * limit;
    if skip < 0 then Failure(GenericServerError)
    else
      var items := Window(SortNewest(all, MediaTime), skip, Abs(limit));
      ItemsOfEnrichAll(items, cs, viewer);
      Success(FeedPage(EnrichAll(items, cs, viewer), |all| > skip + limit))
  }

  /** The skip of a page plus the limit is where the next page starts,
      and a positive page and limit give a skip that is not negative. */
  lemma SkipArithmetic(page: int, limit: int)
    ensures (page - 1) * limit + limit == page * limit
    ensures page >= 1 && limit >= 1 ==> (page - 1) * limit >= 0
  {
  }

  /** `GET /`: the query parameters read with their defaults, then the page. */
  function ListFeed(all: seq<Media>, cs: seq<Comment>, pageQuery: Option<string>, limitQuery: Option<string>,
                    viewer: Option<UserId>): (r: Result<FeedPage, HttpError>)
    ensures var page, limit := QueryNumber(pageQuery, DefaultPage), QueryNumber(limitQuery, DefaultLimit);
      && (page >= 1 && limit >= 1 ==> r.Success?)
      && (r.Failure? <==> (page - 1) * limit < 0)
      && (r.Failure? ==> r.error == GenericServerError)
      && (r.Success? ==> Items(r.value.media) == Window(SortNewest(all, MediaTime), (page - 1) * limit, Abs(limit)))
      && (r.Success? ==> (r.value.hasMore <==> |all| > page * limit))
      && (r.Success? ==> forall k :: 0 <= k < |r.value.media| ==> r.value.media[k] == Enrich(r.value.media[k].item, cs, viewer))
  {
    var page, limit := QueryNumber(pageQuery, DefaultPage), QueryNumber(limitQuery, DefaultLimit);
    SkipArithmetic(page, limit);

    FeedPageOf(all, cs, page, limit, viewer)
  }

  /** Without query parameters the feed is the ten newest media, or all of
      them when there are fewer. */
  lemma DefaultFeed(all: seq<Media>, cs: seq<Comment>, viewer: Option<UserId>)
    ensures ListFeed(all, cs, None, None, viewer).Success?
    ensures Items(ListFeed(all, cs, None, None, viewer).value.media) == SortNewest(all, MediaTime)[..Min(10, |all|)]
    ensures ListFeed(all, cs, None, None, viewer).value.hasMore <==> |all| > 10
  {
    var sorted := SortNewest(all, MediaTime);
    var w := Window(sorted, 0, 10);
    if |all| > 0 {
      assert w == sorted[..Min(10, |all|)];
    }
  }

  /** On every page the route answers, there is more after this page
      exactly when the store holds more than `page * limit` media. */
  lemma HasMoreBeyondPage(all: seq<Media>, cs: seq<Comment>, page: int, limit: int, viewer: Option<UserId>)
    requires FeedPageOf(all, cs, page, limit, viewer).Success?
    ensures FeedPageOf(all, cs, page, limit, viewer).value.hasMore <==> |all| > page * limit
  {
    assert (page - 1) * limit + limit == page * limit;
  }

  /** An empty store gives an empty page and, for a limit that is not
      negative, no more pages. */
  lemma EmptyStoreFeed(cs: seq<Comment>, page: int, limit: int, viewer: Option<UserId>)
    requires FeedPageOf([], cs, page, limit, viewer).Success?
    ensures FeedPageOf([], cs, page, limit, viewer).value.media == []
    ensures limit >= 0 ==> !FeedPageOf([], cs, page, limit, viewer).value.hasMore
  {
    var r := FeedPageOf([], cs, page, limit, viewer);
    assert |Items(r.value.media)| == 0;
  }

  /** A negative limit on the first page makes `hasMore` hold even for an
      empty store, since `skip + limit` is then below 0. */
  lemma NegativeLimitClaimsMore(cs: seq<Comment>, limit: int, viewer: Option<UserId>)
    requires limit < 0
    ensures FeedPageOf([], cs, 1, limit, viewer).Success?
    ensures FeedPageOf([], cs, 1, limit, viewer).value.hasMore
  {
  }

  /** With a positive page and limit, `hasMore` says whether the next page
      has anything on it. */
  lemma HasMoreIffNextPageNonEmpty(all: seq<Media>, cs: seq<Comment>, page: int, limit: int, viewer: Option<UserId>)
    requires page >= 1 && limit >= 1
    ensures FeedPageOf(all, cs, page, limit, viewer).Success?
    ensures FeedPageOf(all, cs, page + 1, limit, viewer).Success?
    ensures FeedPageOf(all, cs, page, limit, viewer).value.hasMore
            <==> |FeedPageOf(all, cs, page + 1, limit, viewer).value.media| > 0
  {
    SkipArithmetic(page, limit);
    HasMoreBeyondPage(all, cs, page, limit, viewer);
    assert (page + 1 - 1) * limit == page * limit;
    var next := FeedPageOf(all, cs, page + 1, limit, viewer);
    assert |Items(next.value.media)| == |next.value.media|;
  }

  /** For a positive page and limit, the page is the window of `limit`
      media after the first `(page - 1) * limit`. */
  lemma PageItems(all: seq<Media>, cs: seq<Comment>, page: int, limit: int, viewer: Option<UserId>)
    requires page >= 1 && limit >= 1
    ensures FeedPageOf(all, cs, page, limit, viewer).Success?
    ensures Items(FeedPageOf(all, cs, page, limit, viewer).value.media)
            == Window(SortNewest(all, MediaTime), (page - 1) * limit, limit)
  {
    SkipArithmetic(page, limit);
  }

  /** Two consecutive pages together are the first of them with twice the
      limit; the second starts right where the first ends. */
  lemma ConsecutivePages(all: seq<Media>, cs: seq<Comment>, page: int, limit: int, viewer: Option<UserId>)
    requires page >= 1 && limit >= 1
    ensures FeedPageOf(all, cs, page, limit, viewer).Success?
    ensures FeedPageOf(all, cs, page + 1, limit, viewer).Success?
    ensures Items(FeedPageOf(all, cs, page, limit, viewer).value.media)
            + Items(FeedPageOf(all, cs, page + 1, limit, viewer).value.media)
            == Window(SortNewest(all, MediaTime), (page - 1) * limit, 2 * limit)
  {
    var skip := (page - 1) * limit;
    var sorted := SortNewest(all, MediaTime);
    SkipArithmetic(page, limit);
    PageItems(all, cs, page, limit, viewer);
    PageItems(all, cs, page + 1, limit, viewer);
    var a := Items(FeedPageOf(all, cs, page, limit, viewer).value.media);
    var b := Items(FeedPageOf(all, cs, page + 1, limit, viewer).value.media);
    assert a == Window(sorted, skip, limit);
    assert b == Window(sorted, skip + limit, limit);
    AdjacentWindows(sorted, skip, limit, limit);
    assert a + b == Window(sorted, skip, limit + limit);
  }

  /** Each page is newest first. */
  lemma PageNewestFirst(all: seq<Media>, cs: seq<Comment>, page: int, limit: int, viewer: Option<UserId>)
    requires FeedPageOf(all, cs, page, limit, viewer).Success?
    ensures NewestFirst(Items(FeedPageOf(all, cs, page, limit, viewer).value.media), MediaTime)
  {
    var sorted := SortNewest(all, MediaTime);
    var skip := (page - 1) * limit;
    var w := Window(sorted, skip, Abs(limit));
    if skip < |sorted| {
      WindowNewestFirst(sorted, MediaTime, skip, skip + Min(Abs(limit), |sorted| - skip));
    }
  }

  /** In a store whose media pass validation, every feed entry's average is
      0 with no ratings and lies in [1, 10] otherwise. */
  lemma FeedAveragesInRange(all: seq<Media>, cs: seq<Comment>, page: int, limit: int, viewer: Option<UserId>)
    requires forall k :: 0 <= k < |all| ==> ValidMedia(all[k])
    requires FeedPageOf(all, cs, page, limit, viewer).Success?
    ensures forall e :: e in FeedPageOf(all, cs, page, limit, viewer).value.media ==>
              (e.item.ratings == [] && e.averageRating == 0.0)
              || (e.item.ratings != [] && InRatingRange(e.averageRating))
  {
    var r := FeedPageOf(all, cs, page, limit, viewer);
    var sorted := SortNewest(all, MediaTime);
    forall e | e in r.value.media
      ensures (e.item.ratings == [] && e.averageRating == 0.0)
              || (e.item.ratings != [] && InRatingRange(e.averageRating))
    {
      var k :| 0 <= k < |r.value.media| && r.value.media[k] == e;
      assert e.item == Items(r.value.media)[k];
      assert e.item in multiset(sorted);
      assert e.item in all;
      if e.item.ratings != [] {
        AverageWithinBounds(e.item.ratings);
      }
    }
  }

  /** `GET /user/:userId`: the media of one creator, newest first, enriched. */
  function ListByCreator(all: seq<Media>, cs: seq<Comment>, creator: UserId, viewer: Option<UserId>): (r: seq<EnrichedMedia>)
    ensures forall k :: 0 <= k < |r| ==> r[k].item.creator == creator
    ensures NewestFirst(Items(r), MediaTime)
    ensures multiset(Items(r)) == multiset(Filter(all, ByCreator(creator)))
    ensures forall k :: 0 <= k < |r| ==> r[k] == Enrich(r[k].item, cs, viewer)
  {
    var mine := Filter(all, ByCreator(creator));
    var items := SortNewest(mine, MediaTime);
    ItemsOfEnrichAll(items, cs, viewer);
    forall k | 0 <= k < |items| ensures items[k].creator == creator {
      SortNewestMembers(mine, MediaTime, items[k]);
      FilterMembers(all, ByCreator(creator), items[k]);
    }
    EnrichAll(items, cs, viewer)
  }

  /** The per-creator feed lists a media document exactly when it is stored
      with that creator, as often as it is stored. */
  lemma ListByCreatorExact(all: seq<Media>, cs: seq<Comment>, creator: UserId, viewer: Option<UserId>, m: Media)
    ensures multiset(Items(ListByCreator(all, cs, creator, viewer)))[m] == if m.creator == creator then multiset(all)[m] else 0
  {
    FilterCounts(all, ByCreator(creator), m);
  }

  /** `GET /:id/comments`: the comments on `id`, newest first. */
  function ListComments(cs: seq<Comment>, id: MediaId): (r: seq<Comment>)
    ensures forall k :: 0 <= k < |r| ==> r[k].media == id
    ensures NewestFirst(r, CommentTime)
    ensures multiset(r) == multiset(CommentsOn(cs, id))
  {
    var on := CommentsOn(cs, id);
    var r := SortNewest(on, CommentTime);
    forall k | 0 <= k < |r| ensures r[k].media == id {
      SortNewestMembers(on, CommentTime, r[k]);
      FilterMembers(cs, OnMedia(id), r[k]);
    }
    r
  }

  /** The comment list holds every comment stored on `id` and nothing else. */
  lemma ListCommentsExact(cs: seq<Comment>, id: MediaId, c: Comment)
    ensures c in ListComments(cs, id) <==> c in cs && c.media == id
  {
    CommentsOnCounts(cs, id, c);
    assert c in ListComments(cs, id) <==> multiset(ListComments(cs, id))[c] > 0;
  }
}
