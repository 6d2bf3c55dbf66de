/** The Video entity (models/video.js): create, list, detailed get, partial
    update and hard delete over the `videos` table. */
module Videos {
  import opened Results
  import opened Js
  import opened Query
  import opened PartialUpdate
  import opened Store

  /** `LIMIT 250` of the list query. */
  const MaxRows: nat := 250

  ghost predicate UrlTaken(videos: seq<VideoRow>, url: string) {
    exists v :: v in videos && v.url == url
  }

  // ---------------------------------------------------------------- create

  /** The outcome of `Video.create` against the current tables, for the row
      it would insert under serial `id` and stamp `stamp`. The owner is
      checked before the url, so an unknown owner wins over a duplicate. */
  function CreateRow(users: seq<UserRow>, videos: seq<VideoRow>, title: string, url: string,
                     description: string, username: string, id: nat, stamp: nat): (r: Result<VideoRow>)
    ensures !HasUser(users, username) ==> r == Err(NotFound("No user with username: " + username + " found"))
    ensures HasUser(users, username) && UrlTaken(videos, url) ==>
      r == Err(BadRequest("This video (url: " + url + ") already exists!"))
    ensures HasUser(users, username) && !UrlTaken(videos, url) ==>
      r == Ok(VideoRow(id, stamp, title, url, description, username, None))
  {
    var dupCheck := Where(videos, (v: VideoRow) => v.url == url);
    var userCheck := UsersNamed(users, Some(username));
    if |userCheck| == 0 then
      Err(NotFound("No user with username: " + username + " found"))
    else
      assert userCheck[0] in userCheck;
      if |dupCheck| > 0 then
        assert dupCheck[0] in dupCheck;
        Err(BadRequest("This video (url: " + url + ") already exists!"))
      else
        Ok(VideoRow(id, stamp, title, url, description, username, None))
  }

  /** `Video.create`: on success the new row, with a fresh id, the current
      stamp and no thumbnail, is appended; on failure nothing changes. */
  method Create(db: Db, title: string, url: string, description: string, username: string) returns (r: Result<VideoRow>)
    requires db.Valid()
    modifies db`videos, db`nextVideoId, db`clock
    ensures db.Valid()
    ensures r == CreateRow(old(db.users), old(db.videos), title, url, description, username, old(db.nextVideoId), old(db.clock))
    ensures r.Ok? ==>
      db.videos == old(db.videos) + [r.value] && db.nextVideoId == old(db.nextVideoId) + 1 && db.clock == old(db.clock) + 1
    ensures r.Err? ==> db.videos == old(db.videos) && db.nextVideoId == old(db.nextVideoId) && db.clock == old(db.clock)
  {
    r := CreateRow(db.users, db.videos, title, url, description, username, db.nextVideoId, db.clock);
    if r.Ok? {
      AddVideo(db.users, db.videos, db.comments, db.likes, db.subscriptions, db.views,
               db.nextVideoId, db.nextCommentId, db.nextLikeId, db.nextSubscriptionId, db.nextViewId, db.clock, r.value);
      db.videos := db.videos + [r.value];
      db.nextVideoId := db.nextVideoId + 1;
      db.clock := db.clock + 1;
    }
  }

  // --------------------------------------------------------------- getAll

  /** The row filter of `getAll`: the `username` filter if it is truthy,
      else the `title` filter if that is truthy, else every row. */
  predicate Matches(filter: Object, v: VideoRow) {
    var username := Prop(filter, "username");
    var title := Prop(filter, "title");
    if Truthy(username) then v.username == Display(username)
    else if Truthy(title) then ILike(v.title, Display(title))
    else true
  }

  /** The rows `getAll` lists once the filter is accepted: at most 250
      matching rows, and every matching row when fewer come back. */
  function Listed(videos: seq<VideoRow>, filter: Object): (r: seq<VideoRow>)
    ensures |r| <= MaxRows
    ensures forall v :: v in r ==> v in videos && Matches(filter, v)
    ensures |r| < MaxRows ==> forall v :: v in videos && Matches(filter, v) ==> v in r
  {
    SelectFacts(videos, (v: VideoRow) => Matches(filter, v), MaxRows);
    Select(videos, (v: VideoRow) => Matches(filter, v), MaxRows)
  }

  /** `Video.getAll`: a non-empty filter with neither a truthy `username`
      nor a truthy `title` is refused; otherwise at most 250 matching rows,
      and every matching row when fewer come back. */
  function GetAll(videos: seq<VideoRow>, filter: Object): (r: Result<seq<VideoRow>>)
    ensures r.Err? <==> |filter| > 0 && !Truthy(Prop(filter, "username")) && !Truthy(Prop(filter, "title"))
    ensures r.Err? ==> r.error == BadRequest("Filter must be either 'username' or 'title'")
    ensures r.Ok? ==> r.value == Listed(videos, filter)
  {
    if |filter| > 0 && !(Truthy(Prop(filter, "username")) || Truthy(Prop(filter, "title"))) then
      Err(BadRequest("Filter must be either 'username' or 'title'"))
    else
      Ok(Listed(videos, filter))
  }

  /** The list is in creation order and, when cut at 250, holds the oldest
      matching videos. */
  lemma ListedOrdered(videos: seq<VideoRow>, filter: Object)
    requires Increasing(videos, VideoStamp)
    ensures Increasing(Listed(videos, filter), VideoStamp)
    ensures forall x, y ::
      x in videos && Matches(filter, x) && x !in Listed(videos, filter) && y in Listed(videos, filter) ==> y.createdAt < x.createdAt
  {
    SelectOrdered(videos, (v: VideoRow) => Matches(filter, v), MaxRows, VideoStamp);
  }

  /** `username` takes precedence: a filter with a truthy `username` lists
      exactly what the `username` filter alone lists, whatever `title` says. */
  lemma UsernameWins(videos: seq<VideoRow>, filter: Object)
    requires Truthy(Prop(filter, "username"))
    ensures GetAll(videos, filter) == GetAll(videos, [("username", Prop(filter, "username"))])
  {
    var alone: Object := [("username", Prop(filter, "username"))];
    WhereSame(videos, (v: VideoRow) => Matches(filter, v), (v: VideoRow) => Matches(alone, v));
  }

  // ------------------------------------------------------------------ get

  /** What `Video.get` returns: the row, the ids of its likes and views,
      and its comments. */
  datatype VideoDetail = VideoDetail(video: VideoRow, likes: seq<int>, views: seq<int>, comments: seq<CommentRow>)

  /** `Video.get`: NotFound for an unknown id; otherwise the video with the
      ids of exactly the likes and views of that video and exactly its
      comments. */
  function Get(videos: seq<VideoRow>, likes: seq<LikeRow>, views: seq<ViewRow>, comments: seq<CommentRow>, id: int): (r: Result<VideoDetail>)
    ensures r.Err? <==> !HasVideo(videos, id)
    ensures r.Err? ==> r.error == NotFound("No video with id \"" + IntToString(id) + "\" found")
    ensures r.Ok? ==> r.value.video in videos && r.value.video.id == id
    ensures r.Ok? ==> forall x :: x in r.value.likes <==> exists l :: l in likes && l.videoId == id && l.id == x
    ensures r.Ok? ==> forall x :: x in r.value.views <==> exists w :: w in views && w.videoId == id && w.id == x
    ensures r.Ok? ==> forall c :: c in r.value.comments <==> c in comments && c.videoId == id
  {
    match First(videos, (v: VideoRow) => v.id == id)
    case None =>
      Err(NotFound("No video with id \"" + IntToString(id) + "\" found"))
    case Some(video) =>
      var likeRows := Where(likes, (l: LikeRow) => l.videoId == id);
      var viewRows := Where(views, (w: ViewRow) => w.videoId == id);
      var commentRows := Where(comments, (c: CommentRow) => c.videoId == id);
      MapIn(likeRows, LikeKey);
      MapIn(viewRows, ViewKey);
      ReverseSame(commentRows);
      Ok(VideoDetail(video, Map(likeRows, LikeKey), Map(viewRows, ViewKey), Reverse(commentRows)))
  }

  /** The view ids come in ascending order and the comments newest first. */
  lemma GetOrdered(videos: seq<VideoRow>, likes: seq<LikeRow>, views: seq<ViewRow>, comments: seq<CommentRow>, id: int)
    requires Increasing(views, ViewKey) && Increasing(comments, CommentStamp)
    ensures Get(videos, likes, views, comments, id).Ok? ==>
      var d := Get(videos, likes, views, comments, id).value;
      (forall i, j :: 0 <= i < j < |d.views| ==> d.views[i] < d.views[j]) && Decreasing(d.comments, CommentStamp)
  {
    var viewRows := Where(views, (w: ViewRow) => w.videoId == id);
    var commentRows := Where(comments, (c: CommentRow) => c.videoId == id);
    WhereIncreasing(views, (w: ViewRow) => w.videoId == id, ViewKey);
    WhereIncreasing(comments, (c: CommentRow) => c.videoId == id, CommentStamp);
    ReverseDecreasing(commentRows, CommentStamp);
  }

  // --------------------------------------------------------------- update

  /** The property renaming `Video.update` passes: `thumbnailImage`. */
  const JsToSql: Object := [("thumbnailImage", Str("thumbnail_image"))]

  /** The text columns of `videos` a SET clause can assign. */
  const Columns: set<string> := {"title", "description", "url", "username", "thumbnail_image"}

  /** A column of a row as a value: NULL for an empty thumbnail,
      `undefined` for a name that is not an updatable column. */
  function ColumnValue(v: VideoRow, c: string): Value {
    if c == "title" then Str(v.title)
    else if c == "description" then Str(v.description)
    else if c == "url" then Str(v.url)
    else if c == "username" then Str(v.username)
    else if c == "thumbnail_image" then (match v.thumbnailImage case Some(s) => Str(s) case None => Null)
    else Undefined
  }

  function SetColumn(v: VideoRow, c: string, x: string): VideoRow {
    if c == "title" then v.(title := x)
    else if c == "description" then v.(description := x)
    else if c == "url" then v.(url := x)
    else if c == "username" then v.(username := x)
    else if c == "thumbnail_image" then v.(thumbnailImage := Some(x))
    else v
  }

  lemma SetColumnFacts()
    ensures SetsColumn(SetColumn, ColumnValue, Text, Columns)
    ensures Keeps(SetColumn, VideoKey) && Keeps(SetColumn, VideoStamp)
  {
    forall v: VideoRow, c: string, d: string, x: string | c in Columns
      ensures ColumnValue(SetColumn(v, c, x), d) == if d == c then Str(x) else ColumnValue(v, d)
    {
      var w := SetColumn(v, c, x);
      if c == "title" {
        assert w == v.(title := x);
      } else if c == "description" {
        assert w == v.(description := x);
      } else if c == "url" {
        assert w == v.(url := x);
      } else if c == "username" {
        assert w == v.(username := x);
      } else {
        assert w == v.(thumbnailImage := Some(x));
      }
    }
  }

  /** The payload names only updatable columns, none twice. */
  ghost predicate ColumnsOk(data: Payload) {
    var assigns := Renamed(data, JsToSql);
    DistinctColumns(assigns) && forall i :: 0 <= i < |assigns| ==> assigns[i].0 in Columns
  }

  /** `after` is `before` with exactly the payload's columns changed. */
  ghost predicate Updated(before: VideoRow, after: VideoRow, data: Payload) {
    && after.id == before.id && after.createdAt == before.createdAt
    && forall c :: ColumnValue(after, c) ==
         match Lookup(Renamed(data, JsToSql), c) case Some(x) => Str(x) case None => ColumnValue(before, c)
  }

  lemma UpdatedRow(v: VideoRow, data: Payload)
    requires ColumnsOk(data)
    ensures Updated(v, ApplyAll(v, Renamed(data, JsToSql), SetColumn), data)
  {
    var assigns := Renamed(data, JsToSql);
    SetColumnFacts();
    ApplyAllKeeps(v, assigns, SetColumn, VideoKey);
    ApplyAllKeeps(v, assigns, SetColumn, VideoStamp);
    forall c ensures ColumnValue(ApplyAll(v, assigns, SetColumn), c) ==
      match Lookup(assigns, c) case Some(x) => Str(x) case None => ColumnValue(v, c)
    {
      ApplyAllGet(v, assigns, SetColumn, ColumnValue, Text, Columns, c);
    }
  }

  /** The outcome of `Video.update(id, data)`: "No data" for an empty
      payload, a database error for a column `videos` cannot take, NotFound
      for an unknown id, and otherwise the row with only the supplied
      columns changed. */
  function UpdateRow(videos: seq<VideoRow>, id: int, data: Payload): (r: Result<VideoRow>)
    ensures data == [] ==> r == Err(BadRequest("No data"))
    ensures data != [] && !ColumnsOk(data) ==> r.Err? && r.error.ServerError?
    ensures data != [] && ColumnsOk(data) && !HasVideo(videos, id) ==>
      r == Err(NotFound("No video with id \"" + IntToString(id) + "\" found"))
    ensures r.Ok? <==> data != [] && ColumnsOk(data) && HasVideo(videos, id)
    ensures r.Ok? ==> exists v :: v in videos && v.id == id && Updated(v, r.value, data)
  {
    match Build(data, JsToSql)
    case Err(e) => Err(e)
    case Ok(u) =>
      var key := IntToString(id);
      BindingFacts(data, JsToSql, key);
      var params := Bind(u, key);
      var assigns := Assignments(u, params);
      match CheckColumns(assigns, Columns)
      case Some(e) => Err(e)
      case None =>
        IntToStringInjectiveAll(id);
        match First(videos, (v: VideoRow) => IntToString(v.id) == params[SelectorIndex(u) - 1])
        case None => Err(NotFound("No video with id \"" + IntToString(id) + "\" found"))
        case Some(v) =>
          UpdatedRow(v, data);
          Ok(ApplyAll(v, assigns, SetColumn))
  }

  /** `UPDATE videos ... WHERE id = $n`: the rows with that id replaced. */
  function ReplaceVideo(videos: seq<VideoRow>, id: int, row: VideoRow): (r: seq<VideoRow>)
    ensures |r| == |videos|
    ensures forall i :: 0 <= i < |videos| ==> r[i] == if videos[i].id == id then row else videos[i]
  {
    ReplaceWhere(videos, (v: VideoRow) => v.id == id, row)
  }

  /** Replacing the one row of an id by a row with the same id and stamp
      keeps every row's id and stamp. */
  lemma ReplaceKeeps(videos: seq<VideoRow>, id: int, v: VideoRow, row: VideoRow)
    requires Increasing(videos, VideoKey) && v in videos && v.id == id
    requires row.id == v.id && row.createdAt == v.createdAt
    ensures forall i :: 0 <= i < |videos| ==>
      VideoStamp(ReplaceVideo(videos, id, row)[i]) == VideoStamp(videos[i])
      && VideoKey(ReplaceVideo(videos, id, row)[i]) == VideoKey(videos[i])
  {
    var k :| 0 <= k < |videos| && videos[k] == v;
    forall i | 0 <= i < |videos| && videos[i].id == id ensures i == k {
      SameId(videos, VideoKey, i, k);
    }
  }

  /** A successful update keeps every row's id and stamp, and so keeps the
      store valid. */
  lemma UpdateKeeps(users: seq<UserRow>, videos: seq<VideoRow>, comments: seq<CommentRow>, likes: seq<LikeRow>,
                      subscriptions: seq<SubscriptionRow>, views: seq<ViewRow>, nextVideoId: nat, nextCommentId: nat,
                      nextLikeId: nat, nextSubscriptionId: nat, nextViewId: nat, clock: nat, id: int, data: Payload)
    requires Tables(users, videos, comments, likes, subscriptions, views,
                    nextVideoId, nextCommentId, nextLikeId, nextSubscriptionId, nextViewId, clock)
    requires UpdateRow(videos, id, data).Ok?
    ensures Tables(users, ReplaceVideo(videos, id, UpdateRow(videos, id, data).value), comments, likes,
                   subscriptions, views, nextVideoId, nextCommentId, nextLikeId, nextSubscriptionId, nextViewId, clock)
  {
    var row := UpdateRow(videos, id, data).value;
    var v :| v in videos && v.id == id && Updated(v, row, data);
    ReplaceKeeps(videos, id, v, row);
    ReplaceVideos(users, videos, comments, likes, subscriptions, views,
                    nextVideoId, nextCommentId, nextLikeId, nextSubscriptionId, nextViewId, clock, ReplaceVideo(videos, id, row));
  }

  /** `Video.update`: the table gets the updated row in place of the old one
      and is otherwise unchanged; on failure nothing changes. */
  method Update(db: Db, id: int, data: Payload) returns (r: Result<VideoRow>)
    requires db.Valid()
    modifies db`videos
    ensures db.Valid()
    ensures r == UpdateRow(old(db.videos), id, data)
    ensures db.videos == if r.Ok? then ReplaceVideo(old(db.videos), id, r.value) else old(db.videos)
  {
    r := UpdateRow(db.videos, id, data);
    if r.Ok? {
      UpdateKeeps(db.users, db.videos, db.comments, db.likes, db.subscriptions, db.views,
                         db.nextVideoId, db.nextCommentId, db.nextLikeId, db.nextSubscriptionId, db.nextViewId, db.clock, id, data);
      db.videos := ReplaceVideo(db.videos, id, r.value);
    }
  }

  // --------------------------------------------------------------- remove

  /** `DELETE FROM videos WHERE id = $1`: every other row stays. */
  function DeleteVideo(videos: seq<VideoRow>, id: int): (r: seq<VideoRow>)
    ensures forall v :: v in r <==> v in videos && v.id != id
  {
    Where(videos, (v: VideoRow) => v.id != id)
  }

  /** `Video.remove`: NotFound when no row has that id; the row is deleted
      and nothing else changes. */
  method Remove(db: Db, id: int) returns (r: Result<()>)
    requires db.Valid()
    modifies db`videos
    ensures db.Valid()
    ensures r.Err? <==> !HasVideo(old(db.videos), id)
    ensures r.Err? ==> r.error == NotFound("No video with id \"" + IntToString(id) + "\" found")
    ensures db.videos == DeleteVideo(old(db.videos), id)
  {
    var returning := Where(db.videos, (v: VideoRow) => v.id == id);
    SerialWhere(db.videos, (v: VideoRow) => v.id != id, VideoStamp, VideoKey, db.clock, db.nextVideoId);
    db.videos := DeleteVideo(db.videos, id);
    if |returning| == 0 {
      r := Err(NotFound("No video with id \"" + IntToString(id) + "\" found"));
    } else {
      assert returning[0] in returning;
      r := Ok(());
    }
  }

  // ------------------------------------------------------ across operations

  /** A video just created is what `get` then finds under its id. */
  lemma CreatedIsFound(users: seq<UserRow>, videos: seq<VideoRow>, likes: seq<LikeRow>, views: seq<ViewRow>,
                       comments: seq<CommentRow>, title: string, url: string, description: string, username: string,
                       id: nat, stamp: nat)
    requires Below(videos, VideoKey, id)
    requires CreateRow(users, videos, title, url, description, username, id, stamp).Ok?
    ensures var row := CreateRow(users, videos, title, url, description, username, id, stamp).value;
      Get(videos + [row], likes, views, comments, id).Ok? && Get(videos + [row], likes, views, comments, id).value.video == row
  {
    var row := CreateRow(users, videos, title, url, description, username, id, stamp).value;
    var s := videos + [row];
    assert s[|videos|] == row;
    assert forall k :: 0 <= k < |videos| ==> s[k] == videos[k];
    forall v | v in s && v.id == id ensures v == row {
      var k :| 0 <= k < |s| && s[k] == v;
    }
  }

  /** After `remove`, `get` of that id is NotFound. */
  lemma RemovedIsGone(videos: seq<VideoRow>, likes: seq<LikeRow>, views: seq<ViewRow>, comments: seq<CommentRow>, id: int)
    ensures Get(DeleteVideo(videos, id), likes, views, comments, id).Err?
  {
  }
}
