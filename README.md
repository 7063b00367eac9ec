# pixelshare media core, in Dafny

This project models the server side of pixelshare's media API, a small
photo and video sharing service. Creators upload images and videos. Viewers
browse a paginated feed, rate items from 1 to 10 and comment on them.

The model covers four pieces of the source:

- the media routes in `server/routes/media.js`:
  - the feed `GET /`, with pagination and per-item enrichment;
  - the per-creator feed `GET /user/:userId`;
  - the upload handler, including its `people` parser and `mediaType` choice;
  - the owner-only `DELETE /:id`;
  - the rating upsert `POST /:id/rate`;
  - listing and posting comments.
- the Media schema in `server/models/Media.js`, with its `averageRating`
  virtual;
- the Comment schema in `server/models/Comment.js`, which the comment routes
  rely on;
- the upload configuration in `server/config/multer.js`: the file filter,
  the stored file name and the size limit.

The database is two in-memory sequences: the stored media documents, each
holding its sequence of embedded ratings, and the stored comments. Both are
in insertion order.

- The read-only routes are pure functions over these sequences (`MediaFeed`).
- The routes that change data are methods of the `MediaStore` class
  (`MediaRoutes`). Each request is one atomic method call.
- `MediaStore` keeps an invariant, `ValidStore`:
  - every document passes schema validation;
  - media ids are distinct;
  - no item holds two ratings by one user;
  - every comment points at a stored item.
- The session's user id, whether the requester is a creator, the hosting
  service's outcome and the current time are explicit parameters.

Files:

- `wrappers.dfy`: `Option` and `Result`.
- `http.dfy`: error replies and the session test.
- `text.dfy`: the JavaScript string operations used. These are `trim`,
  `split`, literal pattern matching, `startsWith`, `toLowerCase`, `parseInt`
  and decimal rendering.
- `sequences.dfy`: the query shapes `find(filter)`, `sort({createdAt: -1})`
  and `skip`/`limit`.
- `media_schema.dfy`, `multer_config.dfy`, `media_feed.dfy` and
  `media_routes.dfy`: the core itself.

Behaviour of the code worth knowing, which the model keeps:

- A comment made only of white space passes the route's `!content` check.
  The schema then trims it to nothing, and `required` makes `save` throw,
  so the route answers 500.
- Ratings are updated by reading the document, changing it and saving it
  back, with no atomic update. The model treats each request as atomic.
- After a delete, listing that item's comments returns an empty list. The
  comment list never looks the media up.

## Model

| member | source | states |
|---|---|---|
| `MediaSchema.AverageRating` | server/models/Media.js:63-68 | 0 when there are no ratings; otherwise the one number that, times the rating count, gives the left-to-right sum of the values |
| `MediaSchema.TotalWithinBounds` | server/models/Media.js:45-49 | when every value lies in [1, 10], the sum lies between count × 1 and count × 10 |
| `MediaSchema.AverageWithinBounds` | server/models/Media.js:45-68 | a non-empty average of stored ratings lies in [1, 10] |
| `MediaSchema.AverageOfSevenNineEight` | server/models/Media.js:63-68 | ratings 7, 9 and 8 average to exactly 8 |
| `MediaSchema.RaterIndex` | server/routes/media.js:191 | the index of the user's first rating, or -1; the entry there belongs to the user, and no earlier entry does (no entry at all when -1) |
| `MediaSchema.NewMedia` | server/models/Media.js:3-61 | a document is built exactly when the title is present and not blank and the url and public id are not empty; the result is then valid, its title, description and location are trimmed, people defaults to [], ratings start empty and createdAt is the creation time |
| `MediaSchema.NewComment` | server/models/Comment.js:3-22 | a comment is built exactly when the content is not blank; it holds the trimmed content and is valid |
| `Text.Trim` | server/routes/media.js:109 | the result has no surrounding white space; it is empty exactly when the input is blank; a trimmed string is left alone |
| `Text.TrimStripsPadding` | server/routes/media.js:109 | trimming removes exactly the blank padding put around a trimmed string |
| `Text.Split` | server/routes/media.js:108 | the pieces hold no separator, there is at least one, and joining them with the separator gives the input back |
| `Text.SplitJoin` | server/routes/media.js:108 | splitting a join of separator-free pieces gives the pieces back |
| `Text.IncludesIffOccurs` | server/config/multer.js:19-21 | the unanchored pattern test holds exactly when the word starts at some position of the string |
| `Text.Decimal` | server/config/multer.js:9 | the decimal rendering of a time is made of digits, has no leading zero, and denotes the number |
| `Text.ParseIntReads` | server/routes/media.js:13-14 | blank padding, an optional `+` or `-`, and a run of decimal digits read as the digits' value, negated exactly for `-`, leading zeros included, whatever follows that neither continues the run nor makes a lone `0` into a `0x` prefix |
| `Text.ParseDigitsReads` | server/routes/media.js:13-14 | after the sign, a decimal digit run that is not a `0x` prefix is read whole in radix 10 |
| `Text.SignWithoutDigits` | server/routes/media.js:13-14 | blank padding, a `+` or `-`, and then no digit reads as `NaN`, so the page and limit fall back to their defaults |
| `Text.ParseIntReadsDecimal` | server/routes/media.js:13-14 | `parseInt` reads a decimal rendering back, whatever follows it apart from digits and an `x` |
| `Text.ParseInt` | server/routes/media.js:13-14 | no text, or text whose first non-blank character is neither a digit nor a sign, gives `NaN`; a negative result comes from a leading `-`; with `Text.ParseIntReads`, signed decimal text is read to its value, and with `Text.SignWithoutDigits` a sign with no digit after it gives `NaN` |
| `Text.Lower` | server/config/multer.js:21 | each character is lower-cased and the length is kept |
| `MulterConfig.IncludesAnyIffSome` | server/config/multer.js:19-21 | the alternation matches exactly when one of its words occurs in the string |
| `MulterConfig.ExtName` | server/config/multer.js:21 | `path.extname`: empty, or a dot followed by neither a dot nor a slash; `MulterConfig.ExtNameAtLastDot`, `MulterConfig.ExtNameNoDot`, `MulterConfig.DotFileIsRefused` and `MulterConfig.ExtNameOfPath` pin it to the text from the last dot of the last name, to empty for a name without a dot and for a dot-file, and to the extension of the last name of a path |
| `MulterConfig.ExtNameNoDot` | server/config/multer.js:21 | a slash-free name without a dot has no extension |
| `MulterConfig.NoExtensionRefused` | server/config/multer.js:18-27 | a file whose name has no extension is refused whatever its mimetype |
| `MulterConfig.ExtNameOfPath` | server/config/multer.js:21 | the extension of `dir/name` is the extension of `name`, for a non-empty slash-free name |
| `MulterConfig.AfterLastSlashOfPath` | server/config/multer.js:21 | the last name of `dir/name` is `name`, for a slash-free name |
| `MulterConfig.ExtNameAtLastDot` | server/config/multer.js:21 | for a slash-free name other than `..` whose last dot is at a position after the first, the extension is the text from that dot on |
| `MulterConfig.FileFilter` | server/config/multer.js:18-27 | accepts exactly when the pattern matches the mimetype as given AND the lower-cased extension; otherwise rejects with "Only images and videos are allowed" |
| `MulterConfig.ExtNameOfLower` | server/config/multer.js:21 | lower-casing a name before or after taking its extension gives the same extension |
| `MulterConfig.FilterIgnoresNameCase` | server/config/multer.js:21 | the verdict for a name equals the verdict for its lower-cased form |
| `MulterConfig.PngMimetypeCase` | server/config/multer.js:20 | `image/png` matches the pattern and `IMAGE/PNG` does not |
| `MulterConfig.FilterIsCaseSensitiveOnMimetype` | server/config/multer.js:20-26 | with an acceptable name, `image/png` is accepted and `IMAGE/PNG` rejected, since the mimetype is not lower-cased |
| `MulterConfig.DotFileIsRefused` | server/config/multer.js:21-26 | a name whose only dot is its first character has no extension and is rejected, whatever the mimetype |
| `MulterConfig.FilterNeedsMatchingExtension` | server/config/multer.js:21-26 | a `stem.ext` whose lower-cased extension contains none of j, p, g, m, w is rejected, whatever the mimetype |
| `MulterConfig.FilterMatchesInsideExtension` | server/config/multer.js:19-24 | the match is unanchored: a matching mimetype with any allowed word anywhere inside the extension is accepted |
| `MulterConfig.StoredFileName` | server/config/multer.js:8-10 | the stored name is exactly the decimal upload time, one `-`, then the whole original name; `parseInt` reads the upload time back from its front |
| `MediaRoutes.AcceptFile` | server/config/multer.js:14-26 | the middleware passes a file exactly when the filter accepts it and it is at most 25 MiB; a filter refusal and an oversize file each give a 500 with their own message |
| `MediaFeed.QueryNumber` | server/routes/media.js:13-14 | a missing query value, `NaN` or 0 gives the default; any other parsed integer is taken as is |
| `MediaFeed.QueryNumberReadsDecimal` | server/routes/media.js:13-14 | a positive decimal query value is taken as written |
| `MediaFeed.CommentsOn` | server/routes/media.js:21 | every comment counted for an item is on that item |
| `MediaFeed.CommentsOnCounts` | server/routes/media.js:21 | an item's comments are every stored comment on it, each as often as stored, and nothing else |
| `MediaFeed.CommentsOnAppend` | server/routes/media.js:21 | storing a comment adds it to its own item's comments only |
| `MediaFeed.ViewerRating` | server/routes/media.js:28-34 | none without a signed-in viewer; otherwise none exactly when the viewer has no rating, else the value of the viewer's first rating |
| `MediaFeed.ViewerRatingOfUniqueRater` | server/routes/media.js:28-34 | with one rating per rater, the viewer's rating is the value of the viewer's entry wherever it sits |
| `MediaFeed.Enrich` | server/routes/media.js:20-42 | the entry keeps the item; its comment count is the number of stored comments on the item; its average is 0 with no ratings and otherwise times the count gives the sum; the viewer rating is `MediaFeed.ViewerRating`: none without a signed-in viewer, else the value of the viewer's first entry |
| `MediaFeed.EnrichAll` | server/routes/media.js:19-43 | one enriched entry per item, in the items' order |
| `MediaFeed.FeedPageOf` | server/routes/media.js:15-51 | a negative skip gives a 500; otherwise the items are the window at skip `(page-1)*limit` of the newest-first order, each enriched, and `hasMore` holds exactly when the total exceeds `skip + limit` |
| `MediaFeed.ListFeed` | server/routes/media.js:11-56 | with page and limit read by `parseInt`, falling back to the default: a positive page and limit always succeed; a negative skip gives 500; otherwise the items are the window at `(page-1)*limit` of the newest-first order `hasMore` holds exactly when the total exceeds `page * limit`, and each entry is its item enriched by `MediaFeed.Enrich` |
| `MediaFeed.SkipArithmetic` | server/routes/media.js:15-46 | `skip + limit` is `page * limit`, and a positive page and limit give a skip that is not negative |
| `MediaFeed.DefaultFeed` | server/routes/media.js:13-17 | with no query the feed is the ten newest items, or all of them when there are fewer, and `hasMore` holds exactly when there are more than ten |
| `MediaFeed.HasMoreBeyondPage` | server/routes/media.js:45-46 | on every page the route answers, `hasMore` holds exactly when the total exceeds `page * limit` |
| `MediaFeed.EmptyStoreFeed` | server/routes/media.js:15-46 | an empty store gives an empty page and, for a limit that is not negative, `hasMore` false |
| `MediaFeed.NegativeLimitClaimsMore` | server/routes/media.js:14-46 | a negative limit on page 1 makes `hasMore` hold even for an empty store |
| `MediaFeed.HasMoreIffNextPageNonEmpty` | server/routes/media.js:15-46 | for positive page and limit, `hasMore` holds exactly when the next page is not empty |
| `MediaFeed.PageItems` | server/routes/media.js:15-17 | for positive page and limit, the page is the `limit` items after the first `(page-1)*limit` of the newest-first order |
| `MediaFeed.ConsecutivePages` | server/routes/media.js:15-17 | two consecutive pages together are the window of twice the limit starting at the first page |
| `MediaFeed.PageNewestFirst` | server/routes/media.js:17 | every page is ordered newest first |
| `MediaFeed.FeedAveragesInRange` | server/routes/media.js:23-26 | in a valid store, each feed entry's average is 0 when it has no ratings, and lies in [1, 10] otherwise |
| `MediaFeed.ListByCreator` | server/routes/media.js:58-91 | every entry is the creator's, enriched; the list is newest first and holds exactly the creator's stored items |
| `MediaFeed.ListByCreatorExact` | server/routes/media.js:60-61 | an item appears, as often as it is stored, exactly when its creator is the requested user |
| `MediaFeed.ListComments` | server/routes/media.js:216-220 | only comments on the item, newest first, and all of them |
| `MediaFeed.ListCommentsExact` | server/routes/media.js:218 | a comment is listed exactly when it is stored and on the item |
| `Sequences.Filter` | server/routes/media.js:60 | the result is no longer than the input and every element satisfies the condition |
| `Sequences.FilterCounts` | server/routes/media.js:60 | the filter keeps every occurrence of a kept element and drops every occurrence of the others |
| `Sequences.SortNewest` | server/routes/media.js:17 | the result is newest first and a permutation of the input |
| `Sequences.Window` | server/routes/media.js:17 | `skip`/`limit`: the at most `n` elements starting at `skip`, or nothing past the end |
| `Sequences.AdjacentWindows` | server/routes/media.js:17 | two adjacent windows together form the window of their joint length |
| `MediaRoutes.TrimAll` | server/routes/media.js:109 | each part is trimmed and the count is kept |
| `MediaRoutes.ParsePeople` | server/routes/media.js:106-111 | a missing or empty field gives []; no listed name is empty or has surrounding white space |
| `MediaRoutes.ParsePeopleMembers` | server/routes/media.js:106-111 | a name is listed exactly when it is not empty and is the trimmed form of some comma-separated part |
| `MediaRoutes.ParsePeopleOfJoin` | server/routes/media.js:106-111 | names that are non-empty, trimmed and comma-free come back unchanged, in order, from their comma join |
| `MediaRoutes.MediaTypeOf` | server/routes/media.js:113-114 | `image` exactly when the mimetype starts with "image", `video` otherwise |
| `MediaRoutes.MediaTypeOfFamilies` | server/routes/media.js:113-114 | every `image/…` mimetype gives `image` and every `video/…` gives `video` |
| `MediaRoutes.AcceptableRating` | server/routes/media.js:181-183 | the route's falsy-or-out-of-range check lets through exactly the values in the schema's [1, 10] |
| `MediaRoutes.Upsert` | server/routes/media.js:191-200 | a rater with an entry has that entry's value replaced and the count kept; otherwise one entry is appended; every other entry is unchanged |
| `MediaRoutes.UpsertCount` | server/routes/media.js:191-200 | the rating count is unchanged for a returning rater and grows by one for a new one |
| `MediaRoutes.UpsertKeepsRatersUnique` | server/routes/media.js:191-200 | at most one entry per rater before means at most one after |
| `MediaRoutes.UpsertKeepsRange` | server/models/Media.js:45-49 | an in-range value keeps every stored value in [1, 10] |
| `MediaRoutes.UpsertSetsViewerRating` | server/routes/media.js:191-209 | after rating, the feed shows the rater the value just given |
| `MediaRoutes.UpsertTwice` | server/routes/media.js:191-200 | rating twice equals rating once with the later value, so no entry accumulates |
| `MediaRoutes.FindRaterIndex` | server/routes/media.js:191 | the linear `findIndex` returns the first index of the rater, or -1 when the rater has no entry |
| `MediaRoutes.MediaIndex` | server/routes/media.js:152 | `findById`: an index holding that id, or -1 when no document has it |
| `MediaRoutes.MediaIndexIsOnly` | server/routes/media.js:152 | in a valid store, the document found is the only one with that id |
| `MediaRoutes.RemoveAt` | server/routes/media.js:168 | removing one document keeps every other one, in order |
| `MediaRoutes.NoCommentsLeftOnDeleted` | server/routes/media.js:166 | after the cascade, no comment on the deleted item is left |
| `MediaRoutes.OtherCommentsKept` | server/routes/media.js:166 | the cascade leaves the comments of every other item as they were |
| `MediaRoutes.UploadKeepsStoreValid` | server/routes/media.js:121-132 | appending a valid new document with the next id keeps the store invariant |
| `MediaRoutes.RemoveAtKeepsMediaValid` | server/routes/media.js:168 | removing a document keeps the media half of the invariant |
| `MediaRoutes.DeleteKeepsCommentsValid` | server/routes/media.js:166-168 | removing an item with its comments leaves no comment pointing at it |
| `MediaRoutes.DeleteKeepsStoreValid` | server/routes/media.js:150-175 | a delete with its cascade keeps the store invariant |
| `MediaRoutes.RateKeepsStoreValid` | server/routes/media.js:191-202 | an in-range upsert on one item keeps the store invariant |
| `MediaRoutes.PostKeepsStoreValid` | server/routes/media.js:241-247 | a valid comment on a stored item keeps the store invariant |
| `MediaRoutes.PostedCommentListed` | server/routes/media.js:241-251 | a posted comment is appended last to its item's comments in storage order, and no other item's comments change |
| `MediaRoutes.PostedCommentListedFirst` | server/routes/media.js:218-247 | a comment posted later than every stored comment on its item is the first entry of that item's newest-first comment list |
| `Sequences.NewestFirstHead` | server/routes/media.js:218 | an element strictly newer than every other heads a newest-first sequence |
| `MediaRoutes.UploadOutcome` | server/routes/media.js:98-147 | 401, 403, the upload middleware's refusal, 400 without a file, and 500 on a hosting failure, in that order; past them, success exactly when the trimmed title is not blank and the hosted url and id are present, else 500; a success is a valid document with the given id, the requester as creator, the trimmed description and location as given, no ratings, the parsed people, and `image` exactly for an `image…` mimetype |
| `MediaRoutes.MediaStore.Upload` | server/routes/media.js:98-148 | answers as `UploadOutcome` with the next fresh id; on success exactly that document is appended and the id advances; on failure nothing changes; comments never change |
| `MediaRoutes.MediaStore.Delete` | server/routes/media.js:150-175 | 401, then 404 for an absent id, 403 for a non-owner and 500 when the hosted file is not destroyed, each changing nothing; on success the item and exactly its comments are removed and everything else is kept |
| `MediaRoutes.MediaStore.Rate` | server/routes/media.js:177-214 | 401, then 400 for a falsy or out-of-range rating before any lookup, then 404, each changing no media; otherwise the request succeeds and only that item's ratings change, by the upsert; the reply carries the new average and echoes the rating |
| `MediaRoutes.MediaStore.PostComment` | server/routes/media.js:227-256 | 401, then 400 for missing or empty content, 404 for an unknown item, and 500 for blank content, each adding nothing; otherwise exactly the trimmed comment is appended |

## Left out

- The Cloudinary upload and destroy calls are left out. Their outcomes are
  the parameters `hosted` and `hostDestroyed`.
- Removing the temporary upload file (`fs.unlinkSync`) is left out, and so is
  the `uploads/` destination directory.
- `populate("creator", "name")` and `populate("user", "name")` are left out.
  Resolving display names is a database join that changes no decision.
- Sessions, password handling and the `isCreator` user lookup are left out.
  The requester's id and whether they are a creator are inputs.
- Database failures (500 "Server error") are left out, except where the
  model names a cause: a negative skip, and a failed validation at `save`.
- Malformed ids that MongoDB cannot cast are left out. Media ids are
  naturals.
- Request bodies whose fields are not strings or numbers are left out. A
  rating sent as a string is not modelled: ratings are reals, and `NaN` is a
  missing value.
- Floating-point rounding of the average is left out. The average is an
  exact real.
- The lost-update race between concurrent ratings, and the `Promise.all`
  fan-out, are left out. Each request is atomic.
- How the database orders items with equal `createdAt` is left out. The
  model uses one fixed order (an insertion sort); the database promises
  none.
- A negative `limit` is read as its absolute value, which is how MongoDB
  treats it. The batch semantics of a negative limit are not modelled.
- `MediaRoutes.ParsePeople`: its contract, together with `ParsePeopleMembers`,
  states which names appear but not their order or repetition.
  `ParsePeopleOfJoin` states the order only for lists whose names are
  already clean.
- `Text.Lower`: case mapping covers ASCII letters only. JavaScript's
  `toLowerCase` also maps other letters, some of them to ASCII (the Kelvin
  sign becomes `k`). The model leaves those characters unchanged.
- `Text.ParseInt`: `Number.parseInt` returns a double. Digit runs longer
  than 2^53 lose precision, and very long runs give `Infinity`, which then
  reaches the database as skip and limit. The model reads an exact
  unbounded integer and answers an ordinary page.
- `Text.ParseInt`: the `0x` hexadecimal prefix is handled by the function
  body, but no lemma states the value it reads.
- `MediaFeed.QueryNumber`: query values that arrive as arrays or objects
  (`?page=1&page=2`) are not modelled. A query value is a string or absent.
- `Text.Split` covers a one-character separator only, which is what the
  route uses.
- The user search in `server/routes/users.js` and all client code are not
  part of this model.
