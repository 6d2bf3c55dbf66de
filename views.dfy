/** The View entity (models/view.js): record a view (anonymous views
    allowed) and list views over the `views` table. There is no duplicate
    check: every view is a new row. */
module Views {
  import opened Results
  import opened Js
  import opened Query
  import opened Store
  import opened Pg

  /** `LIMIT 500` of the list query. */
  const MaxRows: nat := 500

  /** Some user is named `name`, as `WHERE username=$1` would find with
      `name` bound through node-postgres (a NULL name matches no one). */
  ghost predicate KnownUser(users: seq<UserRow>, name: Value) {
    exists u :: u in users && Some(u.username) == SqlParam(name)
  }

  /** The video id `WHERE id=$1` looks for with `id` bound through
      node-postgres: the integer its text denotes; NULL or text that is no
      integer looks for none. */
  function VideoParam(id: Value): (r: Option<int>)
    ensures r.Some? ==> SqlParam(id).Some? && ParseInt(SqlParam(id).value) == r
  {
    match SqlParam(id)
    case None => None
    case Some(t) => ParseInt(t)
  }

  /** `id` bound to `WHERE id=$1` is text Postgres cannot read as an
      integer, so the query fails. */
  predicate BadVideoParam(id: Value) {
    SqlParam(id).Some? && ParseInt(SqlParam(id).value).None?
  }

  /** Some video has the id `WHERE id=$1` looks for. */
  ghost predicate KnownVideo(videos: seq<VideoRow>, id: Value) {
    exists v :: v in videos && VideoParam(id) == Some(v.id)
  }

  // ---------------------------------------------------------------- create

  /** The outcome of `View.create` for the row it would insert under serial
      `id` and stamp `stamp`. A username is checked only when it is truthy;
      a missing one is stored as NULL. */
  function CreateRow(users: seq<UserRow>, videos: seq<VideoRow>, username: Value, videoId: int, id: nat, stamp: nat): (r: Result<ViewRow>)
    ensures (Truthy(username) && !KnownUser(users, username)) || !HasVideo(videos, videoId) ==>
      r == Err(NotFound("video id or username invalid."))
    ensures !(Truthy(username) && !KnownUser(users, username)) && HasVideo(videos, videoId) ==>
      r == Ok(ViewRow(id, stamp, SqlParam(username), videoId))
  {
    var usernameCheck := UsersNamed(users, SqlParam(username));
    var videoIdCheck := Where(videos, (v: VideoRow) => v.id == videoId);
    if (Truthy(username) && |usernameCheck| == 0) || |videoIdCheck| == 0 then
      assert Truthy(username) && |usernameCheck| > 0 ==> usernameCheck[0] in usernameCheck;
      Err(NotFound("video id or username invalid."))
    else
      assert usernameCheck != [] ==> usernameCheck[0] in usernameCheck;
      assert videoIdCheck[0] in videoIdCheck;
      Ok(ViewRow(id, stamp, SqlParam(username), videoId))
  }

  /** An anonymous view of an existing video is accepted and stored with no
      username. */
  lemma AnonymousView(users: seq<UserRow>, videos: seq<VideoRow>, videoId: int, id: nat, stamp: nat)
    ensures CreateRow(users, videos, Undefined, videoId, id, stamp).Ok? <==> HasVideo(videos, videoId)
    ensures CreateRow(users, videos, Undefined, videoId, id, stamp).Ok? ==>
      CreateRow(users, videos, Undefined, videoId, id, stamp).value.username.None?
  {
  }

  /** `View.create`: on success the new row is appended, however many views
      of the same pair exist; on failure nothing changes. */
  method Create(db: Db, username: Value, videoId: int) returns (r: Result<ViewRow>)
    requires db.Valid()
    modifies db`views, db`nextViewId, db`clock
    ensures db.Valid()
    ensures r == CreateRow(old(db.users), old(db.videos), username, videoId, old(db.nextViewId), old(db.clock))
    ensures r.Ok? ==>
      db.views == old(db.views) + [r.value] && db.nextViewId == old(db.nextViewId) + 1 && db.clock == old(db.clock) + 1
    ensures r.Err? ==> db.views == old(db.views) && db.nextViewId == old(db.nextViewId) && db.clock == old(db.clock)
  {
    r := CreateRow(db.users, db.videos, username, videoId, db.nextViewId, db.clock);
    if r.Ok? {
      AddView(db.users, db.videos, db.comments, db.likes, db.subscriptions, db.views,
              db.nextVideoId, db.nextCommentId, db.nextLikeId, db.nextSubscriptionId, db.nextViewId, db.clock, r.value);
      db.views := db.views + [r.value];
      db.nextViewId := db.nextViewId + 1;
      db.clock := db.clock + 1;
    }
  }

  // --------------------------------------------------------------- getAll

  /** The row filter of `getAll`: `username` if truthy (an anonymous view
      never matches), else `videoId` if truthy (its text read as an
      integer), else every row. */
  predicate Matches(filter: Object, w: ViewRow) {
    var username := Prop(filter, "username");
    var videoId := Prop(filter, "videoId");
    if Truthy(username) then w.username == Some(Display(username))
    else if Truthy(videoId) then ParseInt(Display(videoId)) == Some(w.videoId)
    else true
  }

  /** The filter names `username` or `videoId` with a truthy value, or is
      empty. */
  predicate Recognised(filter: Object) {
    |filter| == 0 || Truthy(Prop(filter, "username")) || Truthy(Prop(filter, "videoId"))
  }

  /** The filter's truthy `username` belongs to no user. */
  ghost predicate UnknownUser(users: seq<UserRow>, filter: Object) {
    Truthy(Prop(filter, "username")) && !KnownUser(users, Prop(filter, "username"))
  }

  /** The filter's truthy `videoId` is the id of no video. */
  ghost predicate UnknownVideo(videos: seq<VideoRow>, filter: Object) {
    Truthy(Prop(filter, "videoId")) && !KnownVideo(videos, Prop(filter, "videoId"))
  }

  /** The rows `getAll` lists once the filter is accepted: at most 500
      matching rows, and every matching row when fewer come back. */
  function Listed(views: seq<ViewRow>, filter: Object): (r: seq<ViewRow>)
    ensures |r| <= MaxRows
    ensures forall w :: w in r ==> w in views && Matches(filter, w)
    ensures |r| < MaxRows ==> forall w :: w in views && Matches(filter, w) ==> w in r
    ensures |Where(views, (w: ViewRow) => Matches(filter, w))| <= MaxRows ==>
      forall w :: w in views && Matches(filter, w) ==> w in r
  {
    SelectFacts(views, (w: ViewRow) => Matches(filter, w), MaxRows);
    Select(views, (w: ViewRow) => Matches(filter, w), MaxRows)
  }

  /** `View.getAll`: BadRequest for a non-empty filter without a truthy
      `username` or `videoId`; then a database error when the video check
      query is given a `videoId` that is no integer (it runs whatever
      `username` says); then NotFound for a truthy username no user has,
      checked before a truthy video id no video has; otherwise at most 500
      matching rows, and every matching row when fewer come back. */
  function GetAll(users: seq<UserRow>, videos: seq<VideoRow>, views: seq<ViewRow>, filter: Object): (r: Result<seq<ViewRow>>)
    ensures !Recognised(filter) ==> r == Err(BadRequest("Filter must be either 'username' or 'videoId'"))
    ensures Recognised(filter) && BadVideoParam(Prop(filter, "videoId")) ==> r == Err(BadInteger)
    ensures Recognised(filter) && !BadVideoParam(Prop(filter, "videoId")) && UnknownUser(users, filter) ==>
      r == Err(NotFound("No user with username: " + Display(Prop(filter, "username")) + " found"))
    ensures (Recognised(filter) && !BadVideoParam(Prop(filter, "videoId")) && !UnknownUser(users, filter)
             && UnknownVideo(videos, filter)) ==>
      r == Err(NotFound("No video with id: " + Display(Prop(filter, "videoId")) + " found"))
    ensures r.Ok? <==> (Recognised(filter) && !BadVideoParam(Prop(filter, "videoId"))
                        && !UnknownUser(users, filter) && !UnknownVideo(videos, filter))
    ensures r.Ok? ==> r.value == Listed(views, filter)
  {
    var username := Prop(filter, "username");
    var videoId := Prop(filter, "videoId");
    if |filter| > 0 && !(Truthy(username) || Truthy(videoId)) then
      Err(BadRequest("Filter must be either 'username' or 'videoId'"))
    else if BadVideoParam(videoId) then
      Err(BadInteger)
    else
      var userCheck := UsersNamed(users, SqlParam(username));
      var videoCheck := Where(videos, (v: VideoRow) => VideoParam(videoId) == Some(v.id));
      assert userCheck != [] ==> userCheck[0] in userCheck;
      assert videoCheck != [] ==> videoCheck[0] in videoCheck;
      if Truthy(username) && |userCheck| == 0 then
        Err(NotFound("No user with username: " + Display(username) + " found"))
      else if Truthy(videoId) && |videoCheck| == 0 then
        Err(NotFound("No video with id: " + Display(videoId) + " found"))
      else
        Ok(Listed(views, filter))
  }

  /** The list is in creation order and, when cut at 500, holds the oldest
      matching views. */
  lemma ListedOrdered(views: seq<ViewRow>, filter: Object)
    requires Increasing(views, ViewStamp)
    ensures Increasing(Listed(views, filter), ViewStamp)
    ensures forall x, y ::
      x in views && Matches(filter, x) && x !in Listed(views, filter) && y in Listed(views, filter) ==> y.createdAt < x.createdAt
  {
    SelectOrdered(views, (w: ViewRow) => Matches(filter, w), MaxRows, ViewStamp);
  }

  /** A truthy `username` decides which rows are listed, whatever
      `videoId` says. */
  lemma UsernameWins(views: seq<ViewRow>, filter: Object, x: ViewRow)
    requires Truthy(Prop(filter, "username"))
    ensures Matches(filter, x) <==> Matches([("username", Prop(filter, "username"))], x)
  {
  }

  /** The filter `{videoId}` with a non-zero number selects the rows of
      that video. */
  lemma VideoFilter(views: seq<ViewRow>, videoId: int)
    requires videoId != 0 && InInt4(videoId)
    ensures Recognised([("videoId", Num(videoId))])
    ensures Where(views, (w: ViewRow) => Matches([("videoId", Num(videoId))], w)) == Where(views, (w: ViewRow) => w.videoId == videoId)
  {
    var f: Object := [("videoId", Num(videoId))];
    assert Prop(f, "videoId") == Num(videoId) && Prop(f, "username") == Undefined;
    ParseIntToString(videoId);
    WhereSame(views, (w: ViewRow) => Matches(f, w), (w: ViewRow) => w.videoId == videoId);
  }

  /** The text of a video id, as a query string supplies it, finds the
      video and its views whatever its spelling ("05" for video 5); text
      that is no integer is a database error, even beside a username that
      decides the listing. */
  lemma VideoIdText(users: seq<UserRow>, videos: seq<VideoRow>, views: seq<ViewRow>, text: string, name: string)
    requires name != ""
    ensures ParseInt(text).None? ==>
      GetAll(users, videos, views, [("username", Str(name)), ("videoId", Str(text))]) == Err(BadInteger)
    ensures text != "" ==> forall w :: Matches([("videoId", Str(text))], w) <==> ParseInt(text) == Some(w.videoId)
    ensures text != "" && ParseInt(text).Some? && (exists v :: v in videos && v.id == ParseInt(text).value) ==>
      GetAll(users, videos, views, [("videoId", Str(text))]) == Ok(Listed(views, [("videoId", Str(text))]))
  {
    var both: Object := [("username", Str(name)), ("videoId", Str(text))];
    var alone: Object := [("videoId", Str(text))];
    assert Prop(both, "videoId") == Str(text);
    assert Prop(alone, "videoId") == Str(text) && Prop(alone, "username") == Undefined;
  }

  /** A view just recorded is listed under its video's id while the video's
      views, the new one included, do not exceed the limit. */
  lemma CreatedIsListed(users: seq<UserRow>, videos: seq<VideoRow>, views: seq<ViewRow>, username: Value,
                        videoId: int, id: nat, stamp: nat)
    requires videoId != 0 && InInt4(videoId)
    requires CreateRow(users, videos, username, videoId, id, stamp).Ok?
    requires |Where(views, (w: ViewRow) => w.videoId == videoId)| < MaxRows
    ensures var row := CreateRow(users, videos, username, videoId, id, stamp).value;
      var r := GetAll(users, videos, views + [row], [("videoId", Num(videoId))]);
      r.Ok? && row in r.value
  {
    var row := CreateRow(users, videos, username, videoId, id, stamp).value;
    var f: Object := [("videoId", Num(videoId))];
    var s := views + [row];
    VideoFilter(s, videoId);
    WhereSnoc(views, row, (w: ViewRow) => w.videoId == videoId);
    assert Prop(f, "videoId") == Num(videoId) && Prop(f, "username") == Undefined;
    ParseIntToString(videoId);
    var v :| v in videos && v.id == videoId;
    assert KnownVideo(videos, Prop(f, "videoId"));
  }
}
