# UTube data layer in Dafny

This project models the data layer of UTube, a video-sharing back end. That layer is made of six entity classes (`User`, `Video`,
`Comment`, `VideoLike`, `Subscription`, `View`) that run SQL against PostgreSQL, plus the authorisation middleware
that guards the routes. The model replaces the database with an in-memory store, `Store.Db`, a class with:

- one sequence of rows per table, kept in insertion order;
- a serial counter per table for generated ids (starting at 1);
- one clock that stamps `created_at` and grows with every insert.

Users are keyed by username and take no serial.

The store's invariant is `Store.Db.Valid()`, which states:

- ids grow along each table and stay below the next serial;
- stamps grow along each table and stay below the clock;
- usernames are unique;
- a `(username, videoId)` like pair and a `(subscriber, subscribedTo)` pair appear at most once.

Every operation that changes a table is a method over `Db` with field-granular `modifies` clauses. It keeps `Valid()`,
and it states its result and the new contents of the tables it touches. Every decision the source makes is a pure
function beside the method:

- which error wins;
- which rows a filter lists;
- which columns an update changes.

The lemmas relate operations to each other. Examples: `unlike` undoes `create`, a registered user can log in, a
deleted comment is no longer found.

Two shared modules follow the source's JavaScript semantics:

- `Js` covers JavaScript values, truthiness and property lookup. A filter `{ videoId: 0 }` or `{ username: "" }`
  counts as absent because those values are falsy.
- `PartialUpdate` covers what the models rely on from the partial-update helper: renaming, placeholders, and the
  "No data" refusal.

A third, `Pg`, models how PostgreSQL 15 and earlier read text where they expect an `integer` (the `int4in` input
routine): white space around one optional sign and decimal digits, within 32 bits, and a database error for anything
else (PostgreSQL 16's additions are under Left out). The filters
`video_id='${videoId}'` and the parameter of `SELECT * FROM videos WHERE id=$1` are read that way, so `"05"` finds
video 5 and `"x"` is a database error.

The doc comments of `User.getAll` and `Video.getAll` speak of the 250 most recent rows, but their queries sort by
`created_at` ascending before `LIMIT 250`, so the oldest 250 come back. The model follows the queries:
`Users.GetAllOrdered` and `Videos.ListedOrdered` prove that every row left out is newer than every row listed.

Errors are `BadRequest`, `NotFound`, `Unauthorized` and `ServerError`. The last stands for a database error, such as an
UPDATE naming a column the table does not have.

## Model

| member | source | states |
|---|---|---|
| Store.Db.constructor | models/comment.js:18-27 | A fresh database, before any insert, satisfies the invariant: every table is empty, the serials behind the generated `id` start at 1 and the clock behind `created_at` at 0 |
| Videos.CreateRow | models/video.js:15-44 | An unknown owner gives NotFound even when the url is taken; otherwise a taken url gives BadRequest; otherwise the row echoes title, url, description and username, with a fresh id, the current stamp and no thumbnail |
| Videos.Create | models/video.js:15-44 | A successful create appends exactly that row and advances the serial and clock; a refused one changes nothing; the store stays valid |
| Videos.Listed | models/video.js:63-80 | The listing has at most 250 rows, every row matches the filter (exact username, else case-insensitive title substring), and every matching row is listed when fewer than 250 come back |
| Videos.GetAll | models/video.js:57-85 | BadRequest exactly when the filter has keys but neither `username` nor `title` is truthy; otherwise the listing |
| Videos.ListedOrdered | models/video.js:80 | The listing is in ascending creation order, and a matching video that is left out is newer than every listed one |
| Videos.UsernameWins | models/video.js:63-64 | A truthy `username` decides the result on its own, whatever `title` holds |
| Videos.Get | models/video.js:102-154 | NotFound exactly for an unknown id; otherwise that video, the ids of exactly its likes and its views, and exactly its comments |
| Videos.GetOrdered | models/video.js:128-142 | View ids come in ascending order and comments newest first |
| Videos.SetColumnFacts | models/video.js:170-174 | Assigning one of `title`, `description`, `url`, `username` or `thumbnail_image` writes that text to that column only, and never the id or stamp (an update naming `id` or `created_at` is refused; see Left out) |
| Videos.UpdatedRow | models/video.js:170-194 | Applying a well-formed payload changes exactly the supplied columns, with `thumbnailImage` written to `thumbnail_image` |
| Videos.UpdateRow | models/video.js:170-194 | "No data" BadRequest for `{}`, a database error for a column `videos` does not have or one named twice (and for `id` and `created_at`; see Left out), NotFound for an unknown id; it succeeds exactly otherwise, with the stored row changed in the supplied columns only |
| Videos.ReplaceVideo | models/video.js:176-189 | The UPDATE leaves the table's length alone and replaces the rows with that id only |
| Videos.ReplaceKeeps | models/video.js:176-189 | Replacing the row of an id by its update keeps every id and stamp in the table |
| Videos.UpdateKeeps | models/video.js:170-194 | A successful update keeps the store invariant, ids and stamps included (it cannot name `id` or `created_at`; see Left out) |
| Videos.Update | models/video.js:170-194 | The table holds the updated row in place of the old one on success and is unchanged on failure (the columns refused as in `Videos.UpdateRow`) |
| Videos.DeleteVideo | models/video.js:197-208 | The DELETE keeps exactly the rows with another id |
| Videos.Remove | models/video.js:197-208 | NotFound exactly when no video has that id; the table loses that row and nothing else |
| Videos.CreatedIsFound | models/video.js:15-44 | A video just created is what `get` then finds under its id |
| Videos.RemovedIsGone | models/video.js:197-208 | After `remove`, `get` of that id is NotFound |
| Comments.Create | models/comment.js:15-31 | Appends one row echoing username, videoId and content, with a fresh id and the current stamp, with no existence checks |
| Comments.Listed | models/comment.js:63-65 | At most 250 rows, each matching the filter (username, else the video id its text denotes as an integer), and all matching rows when fewer come back |
| Comments.GetAll | models/comment.js:44-69 | BadRequest exactly for a non-empty filter with neither `username` nor `videoId` truthy; a database error for a deciding `videoId` that is no integer; otherwise the listing |
| Comments.ListedOrdered | models/comment.js:65 | Ascending creation order, and a left-out match is newer than every listed row |
| Comments.UsernameWins | models/comment.js:63-64 | A truthy `username` takes precedence over `videoId` |
| Comments.VideoIdFilter | models/comment.js:64 | Filtering by a non-zero video id in the integer range is accepted and selects exactly that video's comments |
| Comments.VideoIdText | models/comment.js:51-64 | A `videoId` text is accepted exactly when it denotes an integer, selecting the comments of that video whatever its spelling; other text is a database error |
| Comments.Get | models/comment.js:76-93 | The comment with that id, or NotFound exactly when there is none |
| Comments.SetColumnFacts | models/comment.js:108-121 | Assigning `content`, `username` or `video_id` changes that column only (`video_id` to the integer its text denotes), never id or stamp (an update naming `id` or `created_at` is refused; see Left out) |
| Comments.UpdatedRow | models/comment.js:108-127 | A well-formed payload changes exactly its columns, `video_id` to the integer its text denotes |
| Comments.ContentOnly | models/comment.js:108-127 | Updating `{content}` yields the old row with only the content replaced |
| Comments.VideoIdMoves | models/comment.js:108-127 | Updating `{video_id}` with the text of an integer moves the comment to that video and changes nothing else |
| Comments.CheckValues | models/comment.js:121 | Binding the parameters fails with a database error exactly when a value for `video_id` is no integer |
| Comments.UpdateRow | models/comment.js:108-127 | "No data" for `{}`, a database error for a column `comments` does not have or one named twice (and for `id` and `created_at`; see Left out), then a database error for a `video_id` that is no integer, NotFound for an unknown id; success exactly otherwise, changing only the supplied columns |
| Comments.ReplaceComment | models/comment.js:111-121 | The UPDATE replaces the rows with that id only |
| Comments.ReplaceKeeps | models/comment.js:111-121 | Replacing by the updated row keeps every id and stamp |
| Comments.UpdateKeeps | models/comment.js:108-127 | A successful update, moving the comment to another video included, keeps the store invariant (it cannot name `id` or `created_at`; see Left out) |
| Comments.Update | models/comment.js:108-127 | Updated row in place on success, table unchanged on failure (the columns refused as in `Comments.UpdateRow`) |
| Comments.DeleteComment | models/comment.js:130-141 | The DELETE keeps exactly the rows with another id |
| Comments.Remove | models/comment.js:130-141 | NotFound exactly for an unknown id; that row is deleted and nothing else |
| Comments.RemoveKeepsOthers | models/comment.js:130-141 | After removal the id is NotFound and every other id is found exactly as before |
| VideoLikes.CreateRow | models/videoLike.js:14-44 | Unknown username gives 'Invalid username.', checked before an unknown video ('Invalid video id.'), checked before a duplicate pair (BadRequest); otherwise a row echoing both |
| VideoLikes.CreatePairIsNew | models/videoLike.js:25-30 | A successful create's pair differs from every stored pair, so no pair is ever liked twice |
| VideoLikes.Create | models/videoLike.js:14-44 | Success appends exactly the new row; refusal changes nothing; the store stays valid |
| VideoLikes.Listed | models/videoLike.js:75-77 | At most 500 rows, each matching the filter (username, else the video id its text denotes as an integer), and all matches when fewer come back |
| VideoLikes.GetAll | models/videoLike.js:57-81 | BadRequest exactly for a non-empty filter with neither key truthy; a database error for a deciding `videoId` that is no integer; otherwise the listing |
| VideoLikes.ListedOrdered | models/videoLike.js:77 | Ascending creation order, and a left-out match is newer than every listed row |
| VideoLikes.UsernameWins | models/videoLike.js:75-76 | A truthy `username` takes precedence over `videoId` |
| VideoLikes.VideoIdText | models/videoLike.js:63-76 | A `videoId` text is accepted exactly when it denotes an integer, selecting the likes of that video whatever its spelling; other text is a database error |
| VideoLikes.UnknownUserListsNothing | models/videoLike.js:57-81 | With no existence check, a username nobody liked with lists an empty result rather than an error |
| VideoLikes.DeleteLike | models/videoLike.js:89-95 | The DELETE keeps exactly the rows of other pairs |
| VideoLikes.Unlike | models/videoLike.js:86-99 | 'No video like found' exactly when the pair is not liked; that pair is removed and nothing else |
| VideoLikes.UnlikeUndoesCreate | models/videoLike.js:14-99 | Unliking right after a successful like restores the table |
| Subscriptions.CreateRow | models/subscription.js:14-48 | 'Both users must already exist!' if either user is unknown, checked before the duplicate pair (BadRequest); otherwise a row echoing both names |
| Subscriptions.CreatePairIsNew | models/subscription.js:26-31 | A successful create's pair differs from every stored pair |
| Subscriptions.Create | models/subscription.js:14-48 | Success appends exactly the new row; refusal changes nothing; the store stays valid |
| Subscriptions.FirstValue | models/subscription.js:73-74 | The value the existence check looks up is the first property's, whatever its name; an empty filter gives `undefined` |
| Subscriptions.Listed | models/subscription.js:93-97 | At most 500 rows, each matching the filter (subscriber, else subscribed-to), and all matches when fewer come back |
| Subscriptions.Rows | models/subscription.js:69-97 | BadRequest for a non-empty filter with no truthy recognised key, NotFound when the first property's value is not a user; success exactly for `{}` or a recognised filter whose first value names a user |
| Subscriptions.ListedOrdered | models/subscription.js:95 | Ascending creation order, and a left-out match is newer than every listed row |
| Subscriptions.SubscriberWins | models/subscription.js:93-94 | A truthy `subscriberUsername` takes precedence over `subscribedToUsername` |
| Subscriptions.FirstPropertyIsChecked | models/subscription.js:73-78 | The existence check reads the first property, not the recognised key: a leading unrelated property makes a valid filter fail, and the same filter without it succeeds |
| Subscriptions.ImagesOf | models/subscription.js:101-106 | No images exactly when no user has that name; otherwise that user's avatar and cover image |
| Subscriptions.AddImages | models/subscription.js:100-109 | Each listed row, in order, carries the images of the user it subscribes to |
| Subscriptions.GetAll | models/subscription.js:69-112 | The errors of the filter checks, or every listed row in order with its `userImages` |
| Subscriptions.DeleteSubscription | models/subscription.js:120-126 | The DELETE keeps exactly the rows of other pairs |
| Subscriptions.Unsubscribe | models/subscription.js:117-130 | 'No subscription found' exactly when the pair is absent; that pair is removed and nothing else |
| Subscriptions.UnsubscribeUndoesCreate | models/subscription.js:14-130 | Unsubscribing right after a successful subscribe restores the table |
| Views.CreateRow | models/view.js:14-38 | 'video id or username invalid.' when a truthy username is unknown or the video is unknown; otherwise a row with the username (or none) and video id |
| Views.AnonymousView | models/view.js:22 | A view without a username is accepted exactly for an existing video and stored with no username |
| Views.Create | models/view.js:14-38 | Success appends the new row with no duplicate check; refusal changes nothing; the store stays valid |
| Views.Listed | models/view.js:80-82 | At most 500 rows, each matching the filter (username, else the video id its text denotes as an integer), all matches when fewer come back, and all matches when at most 500 match |
| Views.GetAll | models/view.js:51-86 | BadRequest for an unrecognised filter; then a database error when the video check gets a `videoId` that is no integer, whatever `username` says; then NotFound for an unknown username; then NotFound when no video has the id the text denotes; success exactly when none applies |
| Views.VideoParam | models/view.js:57 | The video id `WHERE id=$1` looks for: the integer the bound text denotes, or none for NULL |
| Views.ListedOrdered | models/view.js:82 | Ascending creation order, and a left-out match is newer than every listed row |
| Views.UsernameWins | models/view.js:80-81 | A truthy `username` decides which rows match, whatever `videoId` holds |
| Views.VideoFilter | models/view.js:81 | A non-zero video id in the integer range is recognised and selects exactly that video's views |
| Views.VideoIdText | models/view.js:51-86 | Beside a username, a `videoId` that is no integer is a database error; a `videoId` text selects the views of the video it denotes, and is listed when that video exists, whatever its spelling |
| Views.CreatedIsListed | models/view.js:14-86 | A view just recorded is listed under its video's id while the video has at most 500 views, the new one included |
| Users.Public | models/user.js:20-40 | The public user carries every column of the row except the password |
| Users.Named | models/user.js:19-35 | The lookup finds a user of that name exactly when one exists |
| Users.NamedUnique | models/user.js:19-35 | With unique names, the lookup of a stored user's name finds that user |
| Users.Authenticate | models/user.js:18-45 | Success only for a stored user of that name whose hash matches the password, returned without the password; any failure is 'Invalid username/password combination' |
| Users.AuthenticateExact | models/user.js:18-45 | With unique names, login succeeds if and only if the named user exists and the password matches its hash |
| Users.RegisterRow | models/user.js:53-81 | BadRequest 'Username u already exists!' for a taken name; otherwise a row storing the hash, not the password, with no images or about |
| Users.Register | models/user.js:53-81 | Success appends the row and returns only username, createdAt, firstName, lastName and email; refusal changes nothing; the store stays valid |
| Users.RegisteredCanLogIn | models/user.js:18-81 | A user just registered can log in with the same password |
| Users.RegisterTwiceFails | models/user.js:55-62 | Registering the same name again is refused |
| Users.GetAll | models/user.js:90-107 | The first 250 rows, each without its password |
| Users.GetAllOrdered | models/user.js:102-103 | Ascending creation order, and a left-out user is newer than every listed one |
| Users.SubscriptionsOf | models/user.js:144-150 | Sorted, one entry per subscription made by the user, holding exactly the names subscribed to |
| Users.SubscribersOf | models/user.js:152-158 | Sorted, one entry per subscription to the user, holding exactly the subscriber names |
| Users.VideosOf | models/user.js:160-166 | Exactly the ids of the user's videos |
| Users.VideosOfOrdered | models/user.js:160-170 | The video ids come in ascending order |
| Users.Get | models/user.js:125-173 | NotFound exactly for an unknown name; otherwise the public user with its subscriptions, subscribers and video ids |
| Users.SubscriptionShowsOnBothSides | models/user.js:144-169 | A subscription between two users shows among the first's subscriptions and the second's subscribers |
| Users.SetColumnFacts | models/user.js:189-198 | Assigning one of the columns other than `username` and `created_at` writes that text to that column only, never the name or stamp (an update naming those two is refused; see Left out) |
| Users.UpdatedRow | models/user.js:189-212 | A well-formed payload changes exactly its columns, with firstName, lastName, avatarImage and coverImage renamed |
| Users.UpdateRow | models/user.js:189-220 | "No data" for `{}`, a database error for a column `users` does not have or one named twice (and for `username` and `created_at`; see Left out), NotFound for an unknown name; success exactly otherwise, returning the public row changed in the supplied columns only |
| Users.UpdatedUser | models/user.js:189-220 | The same outcome for the stored row, password included (`username` and `created_at` refused; see Left out) |
| Users.ReplaceUser | models/user.js:200-213 | The UPDATE replaces the row of that name only |
| Users.ReplaceKeeps | models/user.js:200-213 | Replacing by the updated row keeps every name and stamp |
| Users.UpdateKeeps | models/user.js:189-220 | A successful update keeps the store invariant, unique names and growing stamps included (it cannot name `username` or `created_at`; see Left out) |
| Users.Update | models/user.js:189-220 | Updated row in place on success, table unchanged on failure (the columns refused as in `Users.UpdateRow`) |
| Users.DeleteUser | models/user.js:223-230 | The DELETE keeps exactly the users with another name |
| Users.Remove | models/user.js:223-234 | NotFound exactly for an unknown name; that user is deleted and nothing else |
| Users.RemovedCannotLogIn | models/user.js:18-45 | After removal nobody can log in under that name |
| PartialUpdate.Column | models/user.js:190-198 | A property is written to its mapped column when the map names one, else to a column of its own name |
| PartialUpdate.Renamed | models/user.js:190-198 | Each payload property in order, renamed to its column, with its value |
| PartialUpdate.Build | models/user.js:190-198 | `{}` is refused with "No data"; otherwise the i-th property becomes `column=$(i+1)` bound to its value |
| PartialUpdate.BindingFacts | models/user.js:200-214 | With the key bound after the data values at `$(values.length+1)`, the selector reads the key and the SET clause assigns exactly the renamed payload |
| PartialUpdate.Lookup | models/user.js:202-212 | The value a SET clause assigns to a column, if it names it |
| PartialUpdate.ApplyAllGet | models/user.js:202-212 | Running the SET clause gives each named column its value, converted to the column's type, and leaves every other column as it was |
| PartialUpdate.ApplyAllKeeps | models/user.js:202-212 | Running the SET clause never changes a column no item assigns, such as the key |
| PartialUpdate.CheckColumns | models/video.js:176-188 | A database error exactly when the clause names a column outside the table's updatable set or a column twice |
| Pg.ParseInt | models/view.js:57 | The integer a text denotes for an `integer` column is within 32 bits; none where PostgreSQL 15 and earlier refuse the text |
| Pg.ParseIntToString | models/view.js:57 | The decimal text `String(n)` of any 32-bit integer reads back as `n`, so a number's text finds that number |
| Pg.ParseLeadingZero | models/comment.js:51 | `"05"` denotes 5 |
| Pg.ParsePadded | models/comment.js:51 | `" 5 "` denotes 5 |
| Pg.ParseSigned | models/comment.js:51 | `"+5"` denotes 5 and `"-0"` denotes 0 |
| Pg.ParseRefused | models/comment.js:51 | `"x"`, `"5x"` and `""` denote no integer |
| Query.Contains | models/video.js:64 | `needle` occurs in `hay` at some position |
| Query.SortStrings | models/user.js:148 | The result is in text order and is a permutation of its input |
| Auth.SkipSpace | middleware/auth.js:18 | The first non-white-space index from a position, with only white space before it |
| Auth.BackSpace | middleware/auth.js:18 | The end of the text before trailing white space |
| Auth.Trim | middleware/auth.js:18 | A slice of the input with only white space cut off around it, neither starting nor ending with white space |
| Auth.TrimIdempotent | middleware/auth.js:18 | Trimming twice trims nothing more |
| Auth.StripBearer | middleware/auth.js:18 | A leading "Bearer " or "bearer " is removed; anything else is left alone |
| Auth.BearerOnce | middleware/auth.js:18 | Both capitalisations are removed, only once, and "BEARER " is kept |
| Auth.Verified | middleware/auth.js:16-19 | No payload without headers, without a string authorization header or with an empty one; otherwise what verification of the stripped, trimmed token yields |
| Auth.Locals.constructor | middleware/auth.js:14-25 | `res.locals` starts without a user |
| Auth.AuthenticateJwt | middleware/auth.js:14-25 | Never passes an error on; sets the user exactly when verification succeeds and otherwise leaves it as it was |
| Auth.BearerTokenAccepted | middleware/auth.js:14-39 | A "Bearer t" header whose trimmed token verifies logs the request in, so `ensureLoggedIn` passes |
| Auth.UnverifiedRefused | middleware/auth.js:14-39 | A request without a string authorization header, or whose token does not verify, is left without a user and `ensureLoggedIn` refuses it |
| Auth.EnsureLoggedIn | middleware/auth.js:32-39 | Unauthorized exactly when there is no user |
| Auth.EnsureCorrectUser | middleware/auth.js:47-58 | Unauthorized exactly when a truthy `params.username` or `body.username` is not the logged-in user's name; passes when neither is present |
| Auth.OwnNamePasses | middleware/auth.js:47-58 | A logged-in user passes when the request names only that user |
| Auth.AnonymousRefused | middleware/auth.js:47-58 | Without a user, naming any user in the path is refused |

## Left out

- Hashing and token verification are foreign library calls. bcrypt's hash is a parameter of `Users.Register` and
  its compare a parameter of `Users.Authenticate`. `jwt.verify` is a parameter of `Auth.AuthenticateJwt`, returning
  a payload or nothing. Signing tokens (utility_functions/token.js) is not part of this model.
- The partial-update helper (utility_functions/sqlUpdates.js) is not part of this model. Only what its callers
  reveal is modelled: renaming, placeholders `$1..$n`, the selector at `$(n+1)`, and "No data" for `{}`.
- SQL text is not modelled. Filters are value comparisons: a text column is compared with the text the
  interpolated value shows, and `video_id` with the integer that text denotes (`Pg.ParseInt`). ILIKE is an ASCII case-insensitive substring match that reads the value literally: `%` and `_` are not wildcards and `\` is not the escape character LIKE takes it for. Injection through
  interpolated filters is out of scope.
- `created_at` is an abstract number from a clock that grows with every insert. Ties between rows inserted in one
  transaction are not modelled. The `String(createdAt).substring(4, 16)` formatting in `Video.getAll` and `Video.get`
  is not modelled.
- Database constraints and cascades the source does not show are not modelled: foreign keys, unique indexes, and
  deletes cascading to comments, likes, views or subscriptions. `Comment.create` therefore checks nothing, and
  updating a video's url may duplicate another url.
- Videos.Get: likes come back ordered by `video_id`, which does not fix their order. The contract states which ids are
  listed, not their order.
- Numbers are unbounded integers. JavaScript floating-point numbers are not modelled. Postgres's 32-bit `integer`
  range is modelled only where text is read as an integer (`Pg.ParseInt`); ids and video ids the models receive as
  numbers are taken to be in range.
- Ids passed to `get`, `update` and `remove` are integers. A route parameter that is no integer, which Postgres refuses
  with a database error, is not modelled for those operations.
- Update payload values are strings, the type the route schemas admit. A JSON `null` or number as a column value is
  not modelled.
- Route handlers, request schemas, the Express app, the connection pool, `async` scheduling and concurrent requests
  are not modelled.
- Videos.UpdateRow: an update naming `id` or `created_at` is a database error in the model, while Postgres would
  assign them. The store invariant (ids and stamps growing along each table) stands in for every list query's
  `ORDER BY`, and renumbering or restamping a row would break it. The request schemas that restrict update payloads
  are not part of this model.
- Videos.SetColumnFacts: covers the five text columns only; `id` and `created_at` are refused as in `Videos.UpdateRow`.
- Videos.UpdateKeeps: keeps the invariant because `id` and `created_at` are refused as in `Videos.UpdateRow`.
- Videos.Update: refuses `id` and `created_at` as `Videos.UpdateRow` does.
- Comments.UpdateRow: an update naming `id` or `created_at` is a database error in the model, while Postgres would
  assign them, for the reason given for `Videos.UpdateRow`. `video_id` is modelled.
- Comments.SetColumnFacts: covers `content`, `username` and `video_id`; `id` and `created_at` are refused as in
  `Comments.UpdateRow`.
- Comments.UpdateKeeps: keeps the invariant because `id` and `created_at` are refused as in `Comments.UpdateRow`.
- Comments.Update: refuses `id` and `created_at` as `Comments.UpdateRow` does.
- Users.UpdateRow: an update naming `username` or `created_at` is a database error in the model, while Postgres would
  rename or restamp the user. Unique names and growing stamps are part of the store invariant, and a rename would
  also have to reach the subscriptions, likes, comments and videos that name the user.
- Users.UpdatedUser: refuses `username` and `created_at` as `Users.UpdateRow` does.
- Users.SetColumnFacts: covers the columns other than `username` and `created_at`, which are refused as in
  `Users.UpdateRow`.
- Users.UpdateKeeps: keeps the invariant because `username` and `created_at` are refused as in `Users.UpdateRow`.
- Users.Update: refuses `username` and `created_at` as `Users.UpdateRow` does.
- Users.SubscriptionsOf: sorts names in code-point order. Postgres sorts `ORDER BY subscribed_to_username` by the
  database's collation, which the source does not fix and which is often locale-aware (`"alice"` before `"Bob"`).
- Users.SubscribersOf: sorts names in code-point order, not by the database's collation, as for
  `Users.SubscriptionsOf`.
- Subscriptions.FirstValue: takes the filter's properties in the order `Object.values` enumerates them. The model does
  not compute that order from insertion order, where array-index keys such as `"0"` come first.
- Pg.ParseInt: follows `int4in` of PostgreSQL 15 and earlier. The source does not fix the server version, and
  PostgreSQL 16 also accepts `0x`, `0o` and `0b` prefixes and `_` between digits (`"0x10"` is 16, `"1_000"` is 1000),
  which the model refuses with a database error.
- Videos.Listed: the title filter is matched as literal text. PostgreSQL's ILIKE reads `%` and `_` in the value as
  wildcards and `\` as its escape character, so `{title: "a\\b"}` (the text `a\b`) matches the title "ab" there but
  not in the model.
