/** The media routes that change the store: `POST /upload`, `DELETE /:id`,
    `POST /:id/rate` and `POST /:id/comments`, together with the two pieces
    of the upload handler that only compute (the `people` list and the
    `mediaType`). The database is a `MediaStore` object whose fields are the
    stored media, the stored comments and the next fresh media id; each
    request is one atomic call of a method. The session's user id, the
    creator-role lookup and the outcome of the Cloudinary calls are
    parameters. */
module MediaRoutes {
  import opened Wrappers
  import opened Text
  import opened Http
  import opened Sequences
  import opened MediaSchema
  import opened MediaFeed
  import opened MulterConfig

  const NoFileUploaded := HttpError(BadRequest, "No file uploaded")
  const UploadFailed := HttpError(ServerError, "Upload failed")
  const NotAuthorizedToDelete := HttpError(Forbidden, "Not authorized to delete this media")
  const RatingOutOfRange := HttpError(BadRequest, "Rating must be between 1 and 10")
  const CommentContentRequired := HttpError(BadRequest, "Comment content is required")
  const MediaDeleted := "Media deleted successfully"

  // ---------------------------------------------------------------------
  // People parsing and media type

  /** Every string of `parts`, trimmed (`map((person) => person.trim())`). */
  function TrimAll(parts: seq<string>): (r: seq<string>)
    ensures |r| == |parts|
    ensures forall k :: 0 <= k < |r| ==> r[k] == Trim(parts[k])
  {
    seq(|parts|, k requires 0 <= k < |parts| => Trim(parts[k]))
  }

  /** The test of `filter(Boolean)` on strings: only the empty one is falsy. */
  function NonEmpty(): string -> bool {
    (p: string) => p != ""
  }

  /** The `people` list of an upload: a missing or empty field gives the
      empty list; otherwise the comma-separated parts, trimmed, without the
      empty ones. No name in the result is empty or padded. */
  function ParsePeople(people: Option<string>): (r: seq<string>)
    ensures people.None? || people.value == "" ==> r == []
    ensures forall k :: 0 <= k < |r| ==> r[k] != "" && IsTrimmed(r[k])
  {
    if people.None? || people.value == "" then []
    else
      var names := TrimAll(Split(people.value, ','));
      var r := Filter(names, NonEmpty());
      assert forall k :: 0 <= k < |r| ==> r[k] in names by {
        forall k | 0 <= k < |r| ensures r[k] in names {
          FilterMembers(names, NonEmpty(), r[k]);
        }
      }
      r
  }

  /** A name is listed exactly when it is the trimmed form of some
      comma-separated part and is not empty. */
  lemma ParsePeopleMembers(people: string, name: string)
    requires people != ""
    ensures name in ParsePeople(Some(people)) <==>
              name != "" && exists k :: 0 <= k < |Split(people, ',')| && Trim(Split(people, ',')[k]) == name
  {
    var parts := Split(people, ',');
    var names := TrimAll(parts);
    FilterMembers(names, NonEmpty(), name);
    if name in names {
      var k :| 0 <= k < |names| && names[k] == name;
      assert Trim(parts[k]) == name;
    }
    if exists k :: 0 <= k < |parts| && Trim(parts[k]) == name {
      var k :| 0 <= k < |parts| && Trim(parts[k]) == name;
      assert names[k] == name;
    }
  }

  /** Names that are non-empty, unpadded and free of commas come back
      unchanged from the list they are joined into. */
  lemma {:induction false} ParsePeopleOfJoin(names: seq<string>)
    requires |names| >= 1
    requires forall k :: 0 <= k < |names| ==> names[k] != "" && IsTrimmed(names[k]) && ',' !in names[k]
    ensures ParsePeople(Some(Join(names, ','))) == names
  {
    var s := Join(names, ',');
    JoinNotEmpty(names, ',');
    SplitJoin(names, ',');
    TrimAllOfTrimmed(names);
    FilterKeepsAll(names, NonEmpty());
    assert ParsePeople(Some(s)) == Filter(TrimAll(Split(s, ',')), NonEmpty());
  }

  /** A join whose first piece is not empty is not empty. */
  lemma JoinNotEmpty(names: seq<string>, sep: char)
    requires |names| >= 1 && names[0] != ""
    ensures Join(names, sep) != ""
  {
    if |names| > 1 {
      assert Join(names, sep) == names[0] + [sep] + Join(names[1..], sep);
    }
  }

  /** Trimming changes no string that is already trimmed. */
  lemma TrimAllOfTrimmed(parts: seq<string>)
    requires forall k :: 0 <= k < |parts| ==> IsTrimmed(parts[k])
    ensures TrimAll(parts) == parts
  {
  }

  /** `mediaType` chosen from the mimetype: `image` exactly when it starts
      with "image", `video` for everything else. */
  function MediaTypeOf(mimetype: string): (t: MediaType)
    ensures t == Image <==> StartsWith(mimetype, "image")
    ensures t == Video <==> !StartsWith(mimetype, "image")
  {
    if StartsWith(mimetype, "image") then Image else Video
  }

  /** The families of image and video mimetypes get their media types. */
  lemma MediaTypeOfFamilies(subtype: string)
    ensures MediaTypeOf("image/" + subtype) == Image
    ensures MediaTypeOf("video/" + subtype) == Video
  {
    assert ("image/" + subtype)[..5] == "image";
    assert ("video/" + subtype)[0] == 'v';
  }

  // ---------------------------------------------------------------------
  // Upload

  /** The uploaded part as multer describes it. */
  datatype UploadedFile = UploadedFile(originalName: string, mimetype: string, size: nat)

  /** What Cloudinary's upload answers: the secure url and the public id. */
  datatype HostedAsset = HostedAsset(secureUrl: string, publicId: string)

  /** The upload middleware's verdict on a file: `fileFilter` first, then
      the size limit. A refusal reaches the application's error handler,
      which answers 500 with the error's message. */
  function AcceptFile(file: UploadedFile): (r: Option<HttpError>)
    ensures r.None? <==> FileFilter(file.mimetype, file.originalName) == Accept && WithinSizeLimit(file.size)
    ensures FileFilter(file.mimetype, file.originalName) != Accept ==> r == Some(HttpError(ServerError, OnlyImagesAndVideos))
    ensures FileFilter(file.mimetype, file.originalName) == Accept && !WithinSizeLimit(file.size)
            ==> r == Some(HttpError(ServerError, FileTooLarge))
  {
    match FileFilter(file.mimetype, file.originalName)
    case Reject(message) => Some(HttpError(ServerError, message))
    case Accept => if WithinSizeLimit(file.size) then None else Some(HttpError(ServerError, FileTooLarge))
  }

  // ---------------------------------------------------------------------
  // Rating

  /** The route's check `!rating || rating < 1 || rating > 10`, negated:
      a missing rating and 0 are falsy. It lets through exactly the values
      the schema's bounds allow. */
  predicate AcceptableRating(rating: Option<real>)
    ensures AcceptableRating(rating) <==> rating.Some? && InRatingRange(rating.value)
  {
    rating.Some? && rating.value != 0.0 && !(rating.value < 1.0) && !(rating.value > 10.0)
  }

  /** The ratings after `user` rates `v`: the user's first entry gets the
      new value, or a new entry is appended when the user has none. */
  function Upsert(rs: seq<Rating>, user: UserId, v: real, now: int): (r: seq<Rating>)
    ensures RaterIndex(rs, user) >= 0 ==> |r| == |rs| && r[RaterIndex(rs, user)] == rs[RaterIndex(rs, user)].(value := v)
    ensures RaterIndex(rs, user) < 0 ==> |r| == |rs| + 1 && r[|rs|] == Rating(user, v, now)
    ensures forall j :: 0 <= j < |rs| && j != RaterIndex(rs, user) ==> r[j] == rs[j]
  {
    var k := RaterIndex(rs, user);
    if k >= 0 then rs[k := rs[k].(value := v)] else rs + [Rating(user, v, now)]
  }

  /** The number of ratings stays the same for a user who had rated and
      grows by one for a user who had not. */
  lemma UpsertCount(rs: seq<Rating>, user: UserId, v: real, now: int)
    ensures (exists j :: 0 <= j < |rs| && rs[j].user == user) ==> |Upsert(rs, user, v, now)| == |rs|
    ensures (forall j :: 0 <= j < |rs| ==> rs[j].user != user) ==> |Upsert(rs, user, v, now)| == |rs| + 1
  {
  }

  /** No user gets a second entry. */
  lemma UpsertKeepsRatersUnique(rs: seq<Rating>, user: UserId, v: real, now: int)
    requires UniqueRaters(rs)
    ensures UniqueRaters(Upsert(rs, user, v, now))
  {
    var r := Upsert(rs, user, v, now);
    var k := RaterIndex(rs, user);
    forall i, j | 0 <= i < j < |r| ensures r[i].user != r[j].user {
      if k >= 0 {
        assert r[i].user == rs[i].user && r[j].user == rs[j].user;
      } else if j == |rs| {
        assert r[i] == rs[i];
      } else {
        assert r[i] == rs[i] && r[j] == rs[j];
      }
    }
  }

  /** A value within the bounds keeps every stored value within them. */
  lemma UpsertKeepsRange(rs: seq<Rating>, user: UserId, v: real, now: int)
    requires RatingsInRange(rs) && InRatingRange(v)
    ensures RatingsInRange(Upsert(rs, user, v, now))
  {
    var r := Upsert(rs, user, v, now);
    var k := RaterIndex(rs, user);
    forall i | 0 <= i < |r| ensures InRatingRange(r[i].value) {
      if i < |rs| && i != k {
        assert r[i] == rs[i];
      }
    }
  }

  /** After rating, the feed shows the rater the value just given. */
  lemma UpsertSetsViewerRating(rs: seq<Rating>, user: UserId, v: real, now: int)
    requires user != ""
    ensures ViewerRating(Upsert(rs, user, v, now), Some(user)) == Some(v)
  {
    var r := Upsert(rs, user, v, now);
    var k := RaterIndex(rs, user);
    var i := RaterIndex(r, user);
    if k >= 0 {
      assert r[k].user == user;
      assert forall j :: 0 <= j < k ==> r[j] == rs[j];
      assert i == k;
    } else {
      assert forall j :: 0 <= j < |rs| ==> r[j] == rs[j];
      assert r[|rs|].user == user;
      assert i == |rs|;
    }
  }

  /** Rating twice is rating once with the later value: the rater still has
      a single entry, which keeps the time of the first submission. */
  lemma UpsertTwice(rs: seq<Rating>, user: UserId, v1: real, t1: int, v2: real, t2: int)
    ensures Upsert(Upsert(rs, user, v1, t1), user, v2, t2) == Upsert(rs, user, v2, t1)
  {
    var once := Upsert(rs, user, v1, t1);
    var k := RaterIndex(rs, user);
    if k >= 0 {
      assert forall j :: 0 <= j < k ==> once[j] == rs[j];
      assert RaterIndex(once, user) == k;
    } else {
      assert forall j :: 0 <= j < |rs| ==> once[j] == rs[j];
      assert RaterIndex(once, user) == |rs|;
    }
  }

  /** `ratings.findIndex((r) => r.user.toString() === user)`, a linear
      search from the front. */
  method FindRaterIndex(rs: seq<Rating>, user: UserId) returns (k: int)
    ensures k == RaterIndex(rs, user)
    ensures k >= 0 ==> k < |rs| && rs[k].user == user
    ensures k < 0 ==> forall j :: 0 <= j < |rs| ==> rs[j].user != user
  {
    var i := 0;
    while i < |rs|
      invariant 0 <= i <= |rs|
      invariant forall j :: 0 <= j < i ==> rs[j].user != user
    {
      if rs[i].user == user {
        return i;
      }
      i := i + 1;
    }
    return -1;
  }

  /** The body of a successful `POST /:id/rate` reply. */
  datatype RateReply = RateReply(averageRating: real, userRating: real)

  // ---------------------------------------------------------------------
  // The store

  /** The index of the media document with id `id`, or -1 (`findById`). */
  function MediaIndex(media: seq<Media>, id: MediaId): (k: int)
    ensures -1 <= k < |media|
    ensures k >= 0 ==> media[k].id == id
    ensures k < 0 ==> forall j :: 0 <= j < |media| ==> media[j].id != id
  {
    if media == [] then -1
    else if media[0].id == id then 0
    else
      var k := MediaIndex(media[1..], id);
      if k < 0 then -1 else k + 1
  }

  /** Some stored media document has id `id`. */
  predicate HasMedia(media: seq<Media>, id: MediaId) {
    exists j :: 0 <= j < |media| && media[j].id == id
  }

  /** The condition of `deleteMany({ media: id })`, negated: the comments
      that stay. */
  function NotOnMedia(id: MediaId): Comment -> bool {
    (c: Comment) => c.media != id
  }

  /** The store's invariant: every document passes validation, media ids
      are distinct and below `nextId`, no media has two ratings by one user,
      and every comment belongs to a stored media document. */
  predicate ValidStore(media: seq<Media>, comments: seq<Comment>, nextId: MediaId) {
    MediaValid(media, nextId) && CommentsValid(media, comments)
  }

  /** The media half of the invariant. */
  predicate MediaValid(media: seq<Media>, nextId: MediaId) {
    (forall k :: 0 <= k < |media| ==> ValidMedia(media[k]) && UniqueRaters(media[k].ratings) && media[k].id < nextId)
    && (forall i, j :: 0 <= i < j < |media| ==> media[i].id != media[j].id)
  }

  /** The comment half of the invariant. */
  predicate CommentsValid(media: seq<Media>, comments: seq<Comment>) {
    forall k :: 0 <= k < |comments| ==> ValidComment(comments[k]) && HasMedia(media, comments[k].media)
  }

  /** With distinct ids, the document `findById` finds is the only one with
      that id. */
  lemma MediaIndexIsOnly(media: seq<Media>, comments: seq<Comment>, nextId: MediaId, id: MediaId, j: nat)
    requires ValidStore(media, comments, nextId)
    requires j < |media| && media[j].id == id
    ensures MediaIndex(media, id) == j
  {
    assert forall i :: 0 <= i < |media| && i != j ==> media[i].id != id;
  }

  /** After the cascade of a delete no comment on the deleted media is
      left. */
  lemma NoCommentsLeftOnDeleted(cs: seq<Comment>, id: MediaId)
    ensures CommentsOn(Filter(cs, NotOnMedia(id)), id) == []
  {
    FilterDisjoint(cs, NotOnMedia(id), OnMedia(id));
  }

  /** The cascade of a delete leaves the comments of every other media as
      they were. */
  lemma OtherCommentsKept(cs: seq<Comment>, id: MediaId, other: MediaId)
    requires other != id
    ensures CommentsOn(Filter(cs, NotOnMedia(id)), other) == CommentsOn(cs, other)
  {
    FilterImplied(cs, OnMedia(other), NotOnMedia(id));
  }

  /** Removing the document at `k` keeps every other document, in order. */
  function RemoveAt(media: seq<Media>, k: nat): (r: seq<Media>)
    requires k < |media|
    ensures |r| == |media| - 1
    ensures forall j :: 0 <= j < k ==> r[j] == media[j]
    ensures forall j :: k <= j < |r| ==> r[j] == media[j + 1]
  {
    media[..k] + media[k + 1..]
  }

  /** Comments stay attached when every id of the old media is still
      stored. */
  lemma CommentsKeptWithIds(media: seq<Media>, media': seq<Media>, comments: seq<Comment>)
    requires CommentsValid(media, comments)
    requires forall j :: 0 <= j < |media| ==> HasMedia(media', media[j].id)
    ensures CommentsValid(media', comments)
  {
    forall k | 0 <= k < |comments| ensures HasMedia(media', comments[k].media) {
      var j :| 0 <= j < |media| && media[j].id == comments[k].media;
      assert HasMedia(media', media[j].id);
    }
  }

  /** An upload appends a valid document with the next id and no ratings,
      and so keeps the invariant. */
  lemma UploadKeepsStoreValid(media: seq<Media>, comments: seq<Comment>, nextId: MediaId, m: Media)
    requires ValidStore(media, comments, nextId)
    requires ValidMedia(m) && m.id == nextId && m.ratings == []
    ensures ValidStore(media + [m], comments, nextId + 1)
  {
    var ms := media + [m];
    assert forall k :: 0 <= k < |media| ==> ms[k] == media[k];
    assert MediaValid(ms, nextId + 1);
    assert forall j :: 0 <= j < |media| ==> HasMedia(ms, media[j].id) by {
      forall j | 0 <= j < |media| ensures HasMedia(ms, media[j].id) {
        assert ms[j].id == media[j].id;
      }
    }
    CommentsKeptWithIds(media, ms, comments);
  }

  /** Removing one document keeps the media half of the invariant. */
  lemma RemoveAtKeepsMediaValid(media: seq<Media>, nextId: MediaId, k: nat)
    requires MediaValid(media, nextId) && k < |media|
    ensures MediaValid(RemoveAt(media, k), nextId)
  {
    var rest := RemoveAt(media, k);
    forall j | 0 <= j < |rest|
      ensures ValidMedia(rest[j]) && UniqueRaters(rest[j].ratings) && rest[j].id < nextId
    {
      assert rest[j] == media[if j < k then j else j + 1];
    }
    forall i, j | 0 <= i < j < |rest| ensures rest[i].id != rest[j].id {
      var i' := if i < k then i else i + 1;
      var j' := if j < k then j else j + 1;
      assert rest[i] == media[i'] && rest[j] == media[j'];
    }
  }

  /** Removing a document together with its comments leaves no comment
      pointing at it. */
  lemma DeleteKeepsCommentsValid(media: seq<Media>, comments: seq<Comment>, id: MediaId, k: nat)
    requires CommentsValid(media, comments)
    requires k < |media| && media[k].id == id
    ensures CommentsValid(RemoveAt(media, k), Filter(comments, NotOnMedia(id)))
  {
    var kept := Filter(comments, NotOnMedia(id));
    var rest := RemoveAt(media, k);
    forall c | 0 <= c < |kept| ensures ValidComment(kept[c]) && HasMedia(rest, kept[c].media) {
      FilterMembers(comments, NotOnMedia(id), kept[c]);
      var n :| 0 <= n < |comments| && comments[n] == kept[c];
      var j :| 0 <= j < |media| && media[j].id == kept[c].media;
      assert j != k;
      var j' := if j < k then j else j - 1;
      assert rest[j'] == media[j];
    }
  }

  /** Removing a media document together with its comments keeps the
      invariant. */
  lemma DeleteKeepsStoreValid(media: seq<Media>, comments: seq<Comment>, nextId: MediaId, id: MediaId)
    requires ValidStore(media, comments, nextId)
    requires MediaIndex(media, id) >= 0
    ensures ValidStore(RemoveAt(media, MediaIndex(media, id)), Filter(comments, NotOnMedia(id)), nextId)
  {
    RemoveAtKeepsMediaValid(media, nextId, MediaIndex(media, id));
    DeleteKeepsCommentsValid(media, comments, id, MediaIndex(media, id));
  }

  /** Rating changes the ratings of one document and keeps the invariant. */
  lemma RateKeepsStoreValid(media: seq<Media>, comments: seq<Comment>, nextId: MediaId,
                            k: nat, user: UserId, v: real, now: int)
    requires ValidStore(media, comments, nextId)
    requires k < |media| && InRatingRange(v)
    ensures ValidStore(media[k := media[k].(ratings := Upsert(media[k].ratings, user, v, now))], comments, nextId)
  {
    var rs := Upsert(media[k].ratings, user, v, now);
    UpsertKeepsRatersUnique(media[k].ratings, user, v, now);
    UpsertKeepsRange(media[k].ratings, user, v, now);
    var updated := media[k := media[k].(ratings := rs)];
    assert forall j :: 0 <= j < |media| ==> updated[j].id == media[j].id;
    assert MediaValid(updated, nextId);
    assert forall j :: 0 <= j < |media| ==> HasMedia(updated, media[j].id) by {
      forall j | 0 <= j < |media| ensures HasMedia(updated, media[j].id) {
        assert updated[j].id == media[j].id;
      }
    }
    CommentsKeptWithIds(media, updated, comments);
  }

  /** A valid comment on a stored document keeps the invariant. */
  lemma PostKeepsStoreValid(media: seq<Media>, comments: seq<Comment>, nextId: MediaId, c: Comment)
    requires ValidStore(media, comments, nextId)
    requires ValidComment(c) && HasMedia(media, c.media)
    ensures ValidStore(media, comments + [c], nextId)
  {
    var cs := comments + [c];
    assert forall n :: 0 <= n < |comments| ==> cs[n] == comments[n];
    assert CommentsValid(media, cs);
  }

  /** The reply to `POST /upload`, through its middleware chain: the
      session check, the creator check, the upload middleware, the handler's
      missing-file check, the hosting call (`hosted` is `None` when it
      fails) and the schema validation at `save`. A success is the document
      to store under `id`. */
  function UploadOutcome(id: MediaId, requester: Option<UserId>, isCreator: bool, file: Option<UploadedFile>,
                         title: Option<string>, description: Option<string>, people: Option<string>,
                         location: Option<string>, hosted: Option<HostedAsset>, now: int): (r: Result<Media, HttpError>)
    ensures !SignedIn(requester) ==> r == Failure(AuthenticationRequired)
    ensures SignedIn(requester) && !isCreator ==> r == Failure(CreatorAccessRequired)
    ensures SignedIn(requester) && isCreator && file.Some? && AcceptFile(file.value).Some?
            ==> r == Failure(AcceptFile(file.value).value)
    ensures SignedIn(requester) && isCreator && file.None? ==> r == Failure(NoFileUploaded)
    ensures SignedIn(requester) && isCreator && file.Some? && AcceptFile(file.value).None? && hosted.None?
            ==> r == Failure(UploadFailed)
    ensures r.Success? <==> SignedIn(requester) && isCreator && file.Some? && AcceptFile(file.value).None?
                            && hosted.Some? && title.Some? && !IsBlank(title.value)
                            && hosted.value.secureUrl != "" && hosted.value.publicId != ""
    ensures r.Failure? && SignedIn(requester) && isCreator && file.Some? && AcceptFile(file.value).None?
            ==> r == Failure(UploadFailed)
    ensures r.Success? ==> ValidMedia(r.value) && r.value.id == id && r.value.ratings == []
    ensures r.Success? ==> r.value.creator == requester.value && r.value.createdAt == now
                           && r.value.title == Trim(title.value)
                           && r.value.mediaUrl == hosted.value.secureUrl && r.value.publicId == hosted.value.publicId
    ensures r.Success? ==> r.value.people == ParsePeople(people)
    ensures r.Success? ==> r.value.description == TrimIfSet(description) && r.value.location == TrimIfSet(location)
    ensures r.Success? ==> (r.value.mediaType == Image <==> StartsWith(file.value.mimetype, "image"))
  {
    if !SignedIn(requester) then Failure(AuthenticationRequired)
    else if !isCreator then Failure(CreatorAccessRequired)
    else if file.Some? && AcceptFile(file.value).Some? then Failure(AcceptFile(file.value).value)
    else if file.None? then Failure(NoFileUploaded)
    else if hosted.None? then Failure(UploadFailed)
    else
      var m := NewMedia(id, title, description, hosted.value.secureUrl, MediaTypeOf(file.value.mimetype),
                        hosted.value.publicId, requester.value, Some(ParsePeople(people)), location, now);
      if m.None? then Failure(UploadFailed) else Success(m.value)
  }

  class MediaStore {
    var media: seq<Media>
    var comments: seq<Comment>
    var nextId: MediaId

    ghost predicate Valid()
      reads this
    {
      ValidStore(media, comments, nextId)
    }

    /** An empty database. */
    constructor()
      ensures Valid()
      ensures media == [] && comments == [] && nextId == 0
    {
      media := [];
      comments := [];
      nextId := 0;
    }

    /** `POST /upload`: appends the document `UploadOutcome` builds, with
        the next fresh id, and changes nothing when the request fails. */
    method Upload(requester: Option<UserId>, isCreator: bool, file: Option<UploadedFile>,
                  title: Option<string>, description: Option<string>, people: Option<string>,
                  location: Option<string>, hosted: Option<HostedAsset>, now: int)
      returns (r: Result<Media, HttpError>)
      requires Valid()
      modifies this
      ensures Valid()
      ensures r == UploadOutcome(old(nextId), requester, isCreator, file, title, description,
                                 people, location, hosted, now)
      ensures r.Success? ==> media == old(media) + [r.value] && nextId == old(nextId) + 1
      ensures r.Failure? ==> media == old(media) && nextId == old(nextId)
      ensures comments == old(comments)
    {
      r := UploadOutcome(nextId, requester, isCreator, file, title, description, people, location, hosted, now);
      if r.Success? {
        UploadKeepsStoreValid(media, comments, nextId, r.value);
        media := media + [r.value];
        nextId := nextId + 1;
      }
    }

    /** `DELETE /:id`: only the creator may delete; a failing Cloudinary
        `destroy` (`hostDestroyed` false) ends the request before anything
        is removed. On success the media's comments and then the media
        itself are removed, and all other documents stay. */
    method Delete(id: MediaId, requester: Option<UserId>, hostDestroyed: bool) returns (r: Result<string, HttpError>)
      requires Valid()
      modifies this
      ensures Valid()
      ensures !SignedIn(requester) ==> r == Failure(AuthenticationRequired)
      ensures SignedIn(requester) && !HasMedia(old(media), id) ==> r == Failure(MediaNotFound)
      ensures (SignedIn(requester) && HasMedia(old(media), id)
               && old(media)[MediaIndex(old(media), id)].creator != requester.value) ==> r == Failure(NotAuthorizedToDelete)
      ensures (SignedIn(requester) && HasMedia(old(media), id)
               && old(media)[MediaIndex(old(media), id)].creator == requester.value)
              ==> r == (if hostDestroyed then Success(MediaDeleted) else Failure(GenericServerError))
      ensures r.Failure? ==> media == old(media) && comments == old(comments)
      ensures r.Success? ==> media == RemoveAt(old(media), MediaIndex(old(media), id))
                             && comments == Filter(old(comments), NotOnMedia(id))
      ensures nextId == old(nextId)
    {
      if !SignedIn(requester) {
        return Failure(AuthenticationRequired);
      }
      var k := MediaIndex(media, id);
      if k < 0 {
        return Failure(MediaNotFound);
      }
      if media[k].creator != requester.value {
        return Failure(NotAuthorizedToDelete);
      }
      if !hostDestroyed {
        return Failure(GenericServerError);
      }
      var kept := Filter(comments, NotOnMedia(id));
      var rest := RemoveAt(media, k);
      DeleteKeepsStoreValid(media, comments, nextId, id);
      comments := kept;
      media := rest;
      return Success(MediaDeleted);
    }

    /** `POST /:id/rate`: the value is checked before the lookup; then the
        rater's entry is overwritten in place or a new entry is pushed. The
        reply carries the new average and echoes the submitted value. */
    method Rate(id: MediaId, requester: Option<UserId>, rating: Option<real>, now: int) returns (r: Result<RateReply, HttpError>)
      requires Valid()
      modifies this
      ensures Valid()
      ensures !SignedIn(requester) ==> r == Failure(AuthenticationRequired)
      ensures SignedIn(requester) && !AcceptableRating(rating) ==> r == Failure(RatingOutOfRange)
      ensures SignedIn(requester) && AcceptableRating(rating) && !HasMedia(old(media), id) ==> r == Failure(MediaNotFound)
      ensures SignedIn(requester) && AcceptableRating(rating) && HasMedia(old(media), id) ==> r.Success?
      ensures r.Failure? ==> media == old(media)
      ensures r.Success? ==>
                var k := MediaIndex(old(media), id);
                var rs := Upsert(old(media)[k].ratings, requester.value, rating.value, now);
                k >= 0 && media == old(media)[k := old(media)[k].(ratings := rs)]
                && r.value == RateReply(AverageRating(rs), rating.value)
      ensures comments == old(comments) && nextId == old(nextId)
    {
      if !SignedIn(requester) {
        return Failure(AuthenticationRequired);
      }
      if !AcceptableRating(rating) {
        return Failure(RatingOutOfRange);
      }
      var k := MediaIndex(media, id);
      if k < 0 {
        return Failure(MediaNotFound);
      }
      var user := requester.value;
      var v := rating.value;
      var item := media[k];
      var ratings := item.ratings;
      var i := FindRaterIndex(ratings, user);
      if i > -1 {
        ratings := ratings[i := ratings[i].(value := v)];
      } else {
        ratings := ratings + [Rating(user, v, now)];
      }
      assert ratings == Upsert(item.ratings, user, v, now);
      var updated := media[k := item.(ratings := ratings)];
      RateKeepsStoreValid(media, comments, nextId, k, user, v, now);
      media := updated;
      return Success(RateReply(AverageRating(ratings), v));
    }

    /** `POST /:id/comments`: a missing or empty content is refused before
        the lookup; a content of white space only passes that check but
        fails the schema's `required` after trimming, which the route
        answers with 500. On success the trimmed comment is appended. */
    method PostComment(id: MediaId, requester: Option<UserId>, content: Option<string>, now: int)
      returns (r: Result<Comment, HttpError>)
      requires Valid()
      modifies this
      ensures Valid()
      ensures !SignedIn(requester) ==> r == Failure(AuthenticationRequired)
      ensures SignedIn(requester) && (content.None? || content.value == "") ==> r == Failure(CommentContentRequired)
      ensures SignedIn(requester) && content.Some? && content.value != "" && !HasMedia(old(media), id)
              ==> r == Failure(MediaNotFound)
      ensures SignedIn(requester) && content.Some? && content.value != "" && HasMedia(old(media), id)
              ==> r == (if IsBlank(content.value) then Failure(GenericServerError)
                        else Success(Comment(id, requester.value, Trim(content.value), now)))
      ensures r.Success? ==> comments == old(comments) + [r.value]
      ensures r.Failure? ==> comments == old(comments)
      ensures media == old(media) && nextId == old(nextId)
    {
      if !SignedIn(requester) {
        return Failure(AuthenticationRequired);
      }
      if content.None? || content.value == "" {
        return Failure(CommentContentRequired);
      }
      var k := MediaIndex(media, id);
      if k < 0 {
        return Failure(MediaNotFound);
      }
      var c := NewComment(id, requester.value, content.value, now);
      if c.None? {
        return Failure(GenericServerError);
      }
      PostKeepsStoreValid(media, comments, nextId, c.value);
      comments := comments + [c.value];
      return Success(c.value);
    }
  }

  /** A posted comment is appended last to its media's comments, in the
      order they are stored, and changes no other media's comments. */
  lemma PostedCommentListed(cs: seq<Comment>, c: Comment, other: MediaId)
    ensures CommentsOn(cs + [c], c.media) == CommentsOn(cs, c.media) + [c]
    ensures other != c.media ==> CommentsOn(cs + [c], other) == CommentsOn(cs, other)
  {
    CommentsOnAppend(cs, c, c.media);
    CommentsOnAppend(cs, c, other);
  }

  /** A comment posted later than every stored comment on its media heads
      that media's comment list, which is ordered newest first. */
  lemma PostedCommentListedFirst(cs: seq<Comment>, c: Comment)
    requires forall k :: 0 <= k < |cs| && cs[k].media == c.media ==> cs[k].createdAt < c.createdAt
    ensures |ListComments(cs + [c], c.media)| > 0
    ensures ListComments(cs + [c], c.media)[0] == c
  {
    var r := ListComments(cs + [c], c.media);
    ListCommentsExact(cs + [c], c.media, c);
    forall y | y in r && y != c ensures CommentTime(y) < CommentTime(c) {
      ListCommentsExact(cs + [c], c.media, y);
      assert y in cs;
    }
    NewestFirstHead(r, CommentTime, c);
  }
}
