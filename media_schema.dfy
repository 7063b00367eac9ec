/** The stored documents: the Media schema with its embedded ratings and
    its `averageRating` virtual, and the Comment schema. A schema's
    `required`, `trim`, `min`/`max`, `enum` and `default` options become
    the predicates below and the document-building functions `NewMedia`
    and `NewComment`, which stand for creating and validating a document
    before it is saved. */
module MediaSchema {
  import opened Wrappers
  import opened Text

  /** A user's id as the session holds it. */
  type UserId = string
  /** A media document's id. */
  type MediaId = nat

  /** The `enum: ["image", "video"]` of `mediaType`. */
  datatype MediaType = Image | Video

  /** One embedded rating: who rated, the value, when the entry was made. */
  datatype Rating = Rating(user: UserId, value: real, createdAt: int)

  /** A media document. `description` and `location` are optional. */
  datatype Media = Media(
    id: MediaId,
    title: string,
    description: Option<string>,
    mediaUrl: string,
    mediaType: MediaType,
    publicId: string,
    creator: UserId,
    people: seq<string>,
    location: Option<string>,
    ratings: seq<Rating>,
    createdAt: int)

  /** A comment document, pointing at its media by id. */
  datatype Comment = Comment(media: MediaId, user: UserId, content: string, createdAt: int)

  /** The `min` and `max` of a rating's value. */
  const MinRating: real := 1.0
  const MaxRating: real := 10.0

  predicate InRatingRange(v: real) {
    MinRating <= v <= MaxRating
  }

  predicate RatingsInRange(rs: seq<Rating>) {
    forall i :: 0 <= i < |rs| ==> InRatingRange(rs[i].value)
  }

  /** No user has two entries in `rs`. */
  predicate UniqueRaters(rs: seq<Rating>) {
    forall i, j :: 0 <= i < j < |rs| ==> rs[i].user != rs[j].user
  }

  /** The sum of the values, added left to right as `reduce` does. */
  function TotalRating(rs: seq<Rating>): real {
    if rs == [] then 0.0 else TotalRating(rs[..|rs| - 1]) + rs[|rs| - 1].value
  }

  /** The `averageRating` virtual: 0 with no ratings, otherwise the mean,
      the one number that times the count gives the total. */
  function AverageRating(rs: seq<Rating>): (avg: real)
    ensures |rs| == 0 ==> avg == 0.0
    ensures |rs| > 0 ==> avg * (|rs| as real) == TotalRating(rs)
  {
    if |rs| == 0 then 0.0 else TotalRating(rs) / (|rs| as real)
  }

  /** Values within the schema's bounds give a total within the count times
      those bounds. */
  lemma {:induction false} TotalWithinBounds(rs: seq<Rating>)
    requires RatingsInRange(rs)
    ensures (|rs| as real) * MinRating <= TotalRating(rs) <= (|rs| as real) * MaxRating
  {
    if rs != [] {
      var init := rs[..|rs| - 1];
      assert RatingsInRange(init) by {
        forall i | 0 <= i < |init| ensures InRatingRange(init[i].value) {
          assert init[i] == rs[i];
        }
      }
      TotalWithinBounds(init);
      assert InRatingRange(rs[|rs| - 1].value);
    }
  }

  /** A non-empty average of stored ratings lies in [1, 10] as well. */
  lemma AverageWithinBounds(rs: seq<Rating>)
    requires RatingsInRange(rs) && |rs| > 0
    ensures InRatingRange(AverageRating(rs))
  {
    TotalWithinBounds(rs);
    var n := |rs| as real;
    var avg := AverageRating(rs);
    ScaledBounds(avg, n, MinRating, MaxRating, TotalRating(rs));
  }

  /** A number that times a positive `n` lies between `n * lo` and `n * hi`
      lies between `lo` and `hi`. */
  lemma ScaledBounds(a: real, n: real, lo: real, hi: real, total: real)
    requires n > 0.0 && a * n == total && n * lo <= total <= n * hi
    ensures lo <= a <= hi
  {
    assert (a - lo) * n == total - n * lo;
    assert (hi - a) * n == n * hi - total;
  }

  /** Ratings 7, 9 and 8 average to 8. */
  lemma AverageOfSevenNineEight(a: UserId, b: UserId, c: UserId, t: int)
    ensures AverageRating([Rating(a, 7.0, t), Rating(b, 9.0, t), Rating(c, 8.0, t)]) == 8.0
  {
    var rs := [Rating(a, 7.0, t), Rating(b, 9.0, t), Rating(c, 8.0, t)];
    assert rs[..2][..1] == rs[..1] && rs[..1][..0] == [];
    assert TotalRating(rs[..1]) == 7.0;
    assert TotalRating(rs[..2]) == 16.0;
    assert TotalRating(rs) == 24.0;
  }

  /** The index of `user`'s first entry in `rs`, or -1 when there is none:
      `findIndex` with the test `r.user.toString() === user`. */
  function RaterIndex(rs: seq<Rating>, user: UserId): (k: int)
    ensures -1 <= k < |rs|
    ensures k >= 0 ==> rs[k].user == user
    ensures forall j :: 0 <= j < |rs| && (k < 0 || j < k) ==> rs[j].user != user
  {
    if rs == [] then -1
    else if rs[0].user == user then 0
    else
      var k := RaterIndex(rs[1..], user);
      if k < 0 then -1 else k + 1
  }

  /** Mongoose's `required` on a string path refuses the empty string. */
  predicate Present(s: string) {
    s != ""
  }

  /** An optional `trim: true` path holds a trimmed string when it is set. */
  predicate TrimmedIfSet(o: Option<string>) {
    o.None? || IsTrimmed(o.value)
  }

  /** A media document that passes the schema's validation. */
  predicate ValidMedia(m: Media) {
    Present(m.title) && IsTrimmed(m.title)
    && TrimmedIfSet(m.description)
    && Present(m.mediaUrl) && Present(m.publicId)
    && TrimmedIfSet(m.location)
    && RatingsInRange(m.ratings)
  }

  /** A comment document that passes the schema's validation. */
  predicate ValidComment(c: Comment) {
    Present(c.content) && IsTrimmed(c.content)
  }

  function TrimIfSet(o: Option<string>): Option<string> {
    if o.None? then None else Some(Trim(o.value))
  }

  /** Building and validating a new media document: the `trim` setters run
      first, `required` is then checked on the trimmed title, the url and
      the public id; `people` defaults to the empty list, the ratings start
      empty and `createdAt` defaults to the creation time `now`. `None`
      stands for the validation error `save` throws. */
  function NewMedia(id: MediaId, title: Option<string>, description: Option<string>,
                    mediaUrl: string, mediaType: MediaType, publicId: string,
                    creator: UserId, people: Option<seq<string>>,
                    location: Option<string>, now: int): (r: Option<Media>)
    ensures r.Some? <==> title.Some? && !IsBlank(title.value) && Present(mediaUrl) && Present(publicId)
    ensures r.Some? ==> ValidMedia(r.value)
    ensures r.Some? ==> r.value.title == Trim(title.value) && r.value.description == TrimIfSet(description)
                        && r.value.location == TrimIfSet(location)
    ensures r.Some? ==> r.value.id == id && r.value.mediaUrl == mediaUrl && r.value.mediaType == mediaType
                        && r.value.publicId == publicId && r.value.creator == creator
    ensures r.Some? ==> r.value.people == (if people.None? then [] else people.value)
    ensures r.Some? ==> r.value.ratings == [] && r.value.createdAt == now
  {
    if title.None? then None
    else
      var t := Trim(title.value);
      if !Present(t) || !Present(mediaUrl) || !Present(publicId) then None
      else
        Some(Media(id, t, TrimIfSet(description), mediaUrl, mediaType, publicId, creator,
                   if people.None? then [] else people.value,
                   TrimIfSet(location), [], now))
  }

  /** Building and validating a new comment: the content is trimmed, then
      `required` refuses it if nothing is left. */
  function NewComment(media: MediaId, user: UserId, content: string, now: int): (r: Option<Comment>)
    ensures r.Some? <==> !IsBlank(content)
    ensures r.Some? ==> ValidComment(r.value)
    ensures r.Some? ==> r.value == Comment(media, user, Trim(content), now)
  {
    var c := Trim(content);
    if Present(c) then Some(Comment(media, user, c, now)) else None
  }
}
