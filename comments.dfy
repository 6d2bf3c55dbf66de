/** The Comment entity (models/comment.js): create, list, get, partial
    update and hard delete over the `comments` table. `create` checks
    neither the user nor the video. */
module Comments {
  import opened Results
  import opened Js
  import opened Query
  import opened PartialUpdate
  import opened Store
  import opened Pg

  /** `LIMIT 250` of the list query. */
  const MaxRows: nat := 250

  ghost predicate HasComment(comments: seq<CommentRow>, id: int) {
    exists c :: c in comments && c.id == id
  }

  // ---------------------------------------------------------------- create

  /** `Comment.create`: appends one row echoing the input under a fresh id
      and the current stamp, and returns it. */
  method Create(db: Db, username: string, videoId: int, content: string) returns (row: CommentRow)
    requires db.Valid()
    modifies db`comments, db`nextCommentId, db`clock
    ensures db.Valid()
    ensures row == CommentRow(old(db.nextCommentId), old(db.clock), username, videoId, content)
    ensures db.comments == old(db.comments) + [row]
    ensures db.nextCommentId == old(db.nextCommentId) + 1 && db.clock == old(db.clock) + 1
  {
    row := CommentRow(db.nextCommentId, db.clock, username, videoId, content);
    AddComment(db.users, db.videos, db.comments, db.likes, db.subscriptions, db.views,
               db.nextVideoId, db.nextCommentId, db.nextLikeId, db.nextSubscriptionId, db.nextViewId, db.clock, row);
    db.comments := db.comments + [row];
    db.nextCommentId := db.nextCommentId + 1;
    db.clock := db.clock + 1;
  }

  // --------------------------------------------------------------- getAll

  /** The row filter of `getAll`: `username` if truthy, else `videoId` if
      truthy (its text read as an integer, as Postgres reads the quoted
      literal compared with `video_id`), else every row. */
  predicate Matches(filter: Object, c: CommentRow) {
    var username := Prop(filter, "username");
    var videoId := Prop(filter, "videoId");
    if Truthy(username) then c.username == Display(username)
    else if Truthy(videoId) then ParseInt(Display(videoId)) == Some(c.videoId)
    else true
  }

  /** The filter compares `video_id` with text that is no integer. */
  predicate BadVideoId(filter: Object) {
    !Truthy(Prop(filter, "username")) && Truthy(Prop(filter, "videoId")) && ParseInt(Display(Prop(filter, "videoId"))).None?
  }

  /** The rows `getAll` lists once the filter is accepted: at most 250
      matching rows, and every matching row when fewer come back. */
  function Listed(comments: seq<CommentRow>, filter: Object): (r: seq<CommentRow>)
    ensures |r| <= MaxRows
    ensures forall c :: c in r ==> c in comments && Matches(filter, c)
    ensures |r| < MaxRows ==> forall c :: c in comments && Matches(filter, c) ==> c in r
  {
    SelectFacts(comments, (c: CommentRow) => Matches(filter, c), MaxRows);
    Select(comments, (c: CommentRow) => Matches(filter, c), MaxRows)
  }

  /** `Comment.getAll`: a non-empty filter with neither a truthy `username`
      nor a truthy `videoId` is refused; a `videoId` that is no integer is
      a database error; otherwise at most 250 matching rows, and every
      matching row when fewer come back. */
  function GetAll(comments: seq<CommentRow>, filter: Object): (r: Result<seq<CommentRow>>)
    ensures r.Err? <==>
      (|filter| > 0 && !Truthy(Prop(filter, "username")) && !Truthy(Prop(filter, "videoId"))) || BadVideoId(filter)
    ensures r.Err? && !BadVideoId(filter) ==> r.error == BadRequest("Filter must be either 'username' or 'videoId'")
    ensures BadVideoId(filter) ==> r == Err(BadInteger)
    ensures r.Ok? ==> r.value == Listed(comments, filter)
  {
    if |filter| > 0 && !(Truthy(Prop(filter, "username")) || Truthy(Prop(filter, "videoId"))) then
      Err(BadRequest("Filter must be either 'username' or 'videoId'"))
    else if BadVideoId(filter) then
      Err(BadInteger)
    else
      Ok(Listed(comments, filter))
  }

  /** The list is in creation order and, when cut at 250, holds the oldest
      matching comments. */
  lemma ListedOrdered(comments: seq<CommentRow>, filter: Object)
    requires Increasing(comments, CommentStamp)
    ensures Increasing(Listed(comments, filter), CommentStamp)
    ensures forall x, y ::
      x in comments && Matches(filter, x) && x !in Listed(comments, filter) && y in Listed(comments, filter) ==> y.createdAt < x.createdAt
  {
    SelectOrdered(comments, (c: CommentRow) => Matches(filter, c), MaxRows, CommentStamp);
  }

  /** A truthy `username` takes precedence over `videoId`. */
  lemma UsernameWins(comments: seq<CommentRow>, filter: Object)
    requires Truthy(Prop(filter, "username"))
    ensures GetAll(comments, filter) == GetAll(comments, [("username", Prop(filter, "username"))])
  {
    var alone: Object := [("username", Prop(filter, "username"))];
    WhereSame(comments, (c: CommentRow) => Matches(filter, c), (c: CommentRow) => Matches(alone, c));
  }

  /** Filtering by a video id number lists exactly that video's comments. */
  lemma VideoIdFilter(comments: seq<CommentRow>, videoId: int)
    requires videoId != 0 && InInt4(videoId)
    ensures GetAll(comments, [("videoId", Num(videoId))]).Ok?
    ensures forall c :: Matches([("videoId", Num(videoId))], c) <==> c.videoId == videoId
  {
    ParseIntToString(videoId);
  }

  /** Filtering by the text of a video id (as a query string supplies it)
      lists the comments of the video the text denotes, whatever its
      spelling ("05", " 5"); text that is no integer is a database error. */
  lemma VideoIdText(comments: seq<CommentRow>, text: string)
    requires text != ""
    ensures GetAll(comments, [("videoId", Str(text))]).Ok? <==> ParseInt(text).Some?
    ensures ParseInt(text).None? ==> GetAll(comments, [("videoId", Str(text))]) == Err(BadInteger)
    ensures forall c :: Matches([("videoId", Str(text))], c) <==> ParseInt(text) == Some(c.videoId)
  {
  }

  // ------------------------------------------------------------------ get

  /** `Comment.get`: the row with that id, or NotFound. */
  function Get(comments: seq<CommentRow>, id: int): (r: Result<CommentRow>)
    ensures r.Err? <==> !HasComment(comments, id)
    ensures r.Err? ==> r.error == NotFound("No comment with id \"" + IntToString(id) + "\" found")
    ensures r.Ok? ==> r.value in comments && r.value.id == id
  {
    match First(comments, (c: CommentRow) => c.id == id)
    case None => Err(NotFound("No comment with id \"" + IntToString(id) + "\" found"))
    case Some(c) => Ok(c)
  }

  // --------------------------------------------------------------- update

  /** `Comment.update` renames nothing. */
  const JsToSql: Object := []

  /** The columns of `comments` a SET clause can assign; `video_id` is an
      integer column, the others text. */
  const Columns: set<string> := {"content", "username", "video_id"}

  function ColumnValue(c: CommentRow, col: string): Value {
    if col == "content" then Str(c.content)
    else if col == "username" then Str(c.username)
    else if col == "video_id" then Num(c.videoId)
    else Undefined
  }

  /** The video id a `video_id` parameter denotes; an update whose
      `video_id` parameter is no integer fails before any row is written,
      so the 0 is never stored. */
  function VideoIdOf(x: string): int {
    match ParseInt(x)
    case Some(n) => n
    case None => 0
  }

  /** The value a column holds once assigned the parameter `x`. */
  function Assigned(col: string, x: string): Value {
    if col == "video_id" then Num(VideoIdOf(x)) else Str(x)
  }

  function SetColumn(c: CommentRow, col: string, x: string): CommentRow {
    if col == "content" then c.(content := x)
    else if col == "username" then c.(username := x)
    else if col == "video_id" then c.(videoId := VideoIdOf(x))
    else c
  }

  lemma SetColumnFacts()
    ensures SetsColumn(SetColumn, ColumnValue, Assigned, Columns)
    ensures Keeps(SetColumn, CommentKey) && Keeps(SetColumn, CommentStamp)
  {
  }

  ghost predicate ColumnsOk(data: Payload) {
    var assigns := Renamed(data, JsToSql);
    DistinctColumns(assigns) && forall i :: 0 <= i < |assigns| ==> assigns[i].0 in Columns
  }

  /** Every value bound to `video_id` is an integer Postgres accepts. */
  predicate ValuesOk(assigns: seq<(string, string)>) {
    forall i :: 0 <= i < |assigns| && assigns[i].0 == "video_id" ==> ParseInt(assigns[i].1).Some?
  }

  /** The check Postgres makes when it binds the parameters. */
  function CheckValues(assigns: seq<(string, string)>): (r: Option<Error>)
    ensures r.None? <==> ValuesOk(assigns)
    ensures r.Some? ==> r.value == BadInteger
  {
    if ValuesOk(assigns) then None else Some(BadInteger)
  }

  /** `after` is `before` with exactly the payload's columns changed; id
      and stamp never change. */
  ghost predicate Updated(before: CommentRow, after: CommentRow, data: Payload) {
    && after.id == before.id && after.createdAt == before.createdAt
    && forall col :: ColumnValue(after, col) ==
         match Lookup(Renamed(data, JsToSql), col) case Some(x) => Assigned(col, x) case None => ColumnValue(before, col)
  }

  lemma UpdatedRow(c: CommentRow, data: Payload)
    requires ColumnsOk(data)
    ensures Updated(c, ApplyAll(c, Renamed(data, JsToSql), SetColumn), data)
  {
    var assigns := Renamed(data, JsToSql);
    SetColumnFacts();
    ApplyAllKeeps(c, assigns, SetColumn, CommentKey);
    ApplyAllKeeps(c, assigns, SetColumn, CommentStamp);
    forall col ensures ColumnValue(ApplyAll(c, assigns, SetColumn), col) ==
      match Lookup(assigns, col) case Some(x) => Assigned(col, x) case None => ColumnValue(c, col)
    {
      ApplyAllGet(c, assigns, SetColumn, ColumnValue, Assigned, Columns, col);
    }
  }

  /** A payload of only `content` changes only the content. */
  lemma ContentOnly(before: CommentRow, after: CommentRow, content: string)
    requires Updated(before, after, [("content", content)])
    ensures after == before.(content := content)
  {
    assert ColumnValue(after, "content") == Str(content);
    assert ColumnValue(after, "username") == ColumnValue(before, "username");
    assert ColumnValue(after, "video_id") == ColumnValue(before, "video_id");
  }

  /** A payload of only `video_id` moves the comment to the video its
      text denotes and changes nothing else. */
  lemma VideoIdMoves(before: CommentRow, after: CommentRow, text: string, n: int)
    requires Updated(before, after, [("video_id", text)]) && ParseInt(text) == Some(n)
    ensures after == before.(videoId := n)
  {
    assert ColumnValue(after, "video_id") == Num(n);
    assert ColumnValue(after, "content") == ColumnValue(before, "content");
    assert ColumnValue(after, "username") == ColumnValue(before, "username");
  }

  /** The outcome of `Comment.update(id, data)`: "No data" for an empty
      payload, a database error for a column `comments` does not have or
      one named twice, a database error for a `video_id` that is no
      integer, NotFound for an unknown id, and otherwise the row with only
      the supplied columns changed. */
  function UpdateRow(comments: seq<CommentRow>, id: int, data: Payload): (r: Result<CommentRow>)
    ensures data == [] ==> r == Err(BadRequest("No data"))
    ensures data != [] && !ColumnsOk(data) ==> r.Err? && r.error.ServerError?
    ensures data != [] && ColumnsOk(data) && !ValuesOk(Renamed(data, JsToSql)) ==> r == Err(BadInteger)
    ensures data != [] && ColumnsOk(data) && ValuesOk(Renamed(data, JsToSql)) && !HasComment(comments, id) ==>
      r == Err(NotFound("No comment with id \"" + IntToString(id) + "\" found"))
    ensures r.Ok? <==> data != [] && ColumnsOk(data) && ValuesOk(Renamed(data, JsToSql)) && HasComment(comments, id)
    ensures r.Ok? ==> exists c :: c in comments && c.id == id && Updated(c, r.value, data)
  {
    match Build(data, JsToSql)
    case Err(e) => Err(e)
    case Ok(u) =>
      var key := IntToString(id);
      BindingFacts(data, JsToSql, key);
      var params := Bind(u, key);
      var assigns := Assignments(u, params);
      match CheckColumns(assigns, Columns)
      case Some(e) => Err(e)
      case None =>
        match CheckValues(assigns)
        case Some(e) => Err(e)
        case None =>
          IntToStringInjectiveAll(id);
          match First(comments, (c: CommentRow) => IntToString(c.id) == params[SelectorIndex(u) - 1])
          case None => Err(NotFound("No comment with id \"" + IntToString(id) + "\" found"))
          case Some(c) =>
            UpdatedRow(c, data);
            Ok(ApplyAll(c, assigns, SetColumn))
  }

  /** `UPDATE comments ... WHERE id = $n`: the rows with that id replaced. */
  function ReplaceComment(comments: seq<CommentRow>, id: int, row: CommentRow): (r: seq<CommentRow>)
    ensures |r| == |comments|
    ensures forall i :: 0 <= i < |comments| ==> r[i] == if comments[i].id == id then row else comments[i]
  {
    ReplaceWhere(comments, (c: CommentRow) => c.id == id, row)
  }

  /** Replacing the one row of an id by a row with the same id and stamp
      keeps every row's id and stamp. */
  lemma ReplaceKeeps(comments: seq<CommentRow>, id: int, c: CommentRow, row: CommentRow)
    requires Increasing(comments, CommentKey) && c in comments && c.id == id
    requires row.id == c.id && row.createdAt == c.createdAt
    ensures forall i :: 0 <= i < |comments| ==>
      CommentStamp(ReplaceComment(comments, id, row)[i]) == CommentStamp(comments[i])
      && CommentKey(ReplaceComment(comments, id, row)[i]) == CommentKey(comments[i])
  {
    var k :| 0 <= k < |comments| && comments[k] == c;
    forall i | 0 <= i < |comments| && comments[i].id == id ensures i == k {
      SameId(comments, CommentKey, i, k);
    }
  }

  /** A successful update keeps every row's id and stamp, and so keeps the
      store valid. */
  lemma UpdateKeeps(users: seq<UserRow>, videos: seq<VideoRow>, comments: seq<CommentRow>, likes: seq<LikeRow>,
                      subscriptions: seq<SubscriptionRow>, views: seq<ViewRow>, nextVideoId: nat, nextCommentId: nat,
                      nextLikeId: nat, nextSubscriptionId: nat, nextViewId: nat, clock: nat, id: int, data: Payload)
    requires Tables(users, videos, comments, likes, subscriptions, views,
                    nextVideoId, nextCommentId, nextLikeId, nextSubscriptionId, nextViewId, clock)
    requires UpdateRow(comments, id, data).Ok?
    ensures Tables(users, videos, ReplaceComment(comments, id, UpdateRow(comments, id, data).value), likes,
                   subscriptions, views, nextVideoId, nextCommentId, nextLikeId, nextSubscriptionId, nextViewId, clock)
  {
    var row := UpdateRow(comments, id, data).value;
    var c :| c in comments && c.id == id && Updated(c, row, data);
    ReplaceKeeps(comments, id, c, row);
    ReplaceComments(users, videos, comments, likes, subscriptions, views,
                    nextVideoId, nextCommentId, nextLikeId, nextSubscriptionId, nextViewId, clock, ReplaceComment(comments, id, row));
  }

  /** `Comment.update`: the table gets the updated row in place of the old
      one and is otherwise unchanged; on failure nothing changes. */
  method Update(db: Db, id: int, data: Payload) returns (r: Result<CommentRow>)
    requires db.Valid()
    modifies db`comments
    ensures db.Valid()
    ensures r == UpdateRow(old(db.comments), id, data)
    ensures db.comments == if r.Ok? then ReplaceComment(old(db.comments), id, r.value) else old(db.comments)
  {
    r := UpdateRow(db.comments, id, data);
    if r.Ok? {
      UpdateKeeps(db.users, db.videos, db.comments, db.likes, db.subscriptions, db.views,
                         db.nextVideoId, db.nextCommentId, db.nextLikeId, db.nextSubscriptionId, db.nextViewId, db.clock, id, data);
      db.comments := ReplaceComment(db.comments, id, r.value);
    }
  }

  // --------------------------------------------------------------- remove

  /** `DELETE FROM comments WHERE id = $1`: every other row stays. */
  function DeleteComment(comments: seq<CommentRow>, id: int): (r: seq<CommentRow>)
    ensures forall c :: c in r <==> c in comments && c.id != id
  {
    Where(comments, (c: CommentRow) => c.id != id)
  }

  /** `Comment.remove`: NotFound when no row has that id; the row is
      deleted and every other comment stays. */
  method Remove(db: Db, id: int) returns (r: Result<()>)
    requires db.Valid()
    modifies db`comments
    ensures db.Valid()
    ensures r.Err? <==> !HasComment(old(db.comments), id)
    ensures r.Err? ==> r.error == NotFound("No comment with id \"" + IntToString(id) + "\" found")
    ensures db.comments == DeleteComment(old(db.comments), id)
  {
    var returning := Where(db.comments, (c: CommentRow) => c.id == id);
    SerialWhere(db.comments, (c: CommentRow) => c.id != id, CommentStamp, CommentKey, db.clock, db.nextCommentId);
    db.comments := DeleteComment(db.comments, id);
    if |returning| == 0 {
      r := Err(NotFound("No comment with id \"" + IntToString(id) + "\" found"));
    } else {
      assert returning[0] in returning;
      r := Ok(());
    }
  }

  // ------------------------------------------------------ across operations

  /** After `remove`, `get` of that id is NotFound and every other comment
      is still found. */
  lemma RemoveKeepsOthers(comments: seq<CommentRow>, id: int, other: int)
    requires Unique(comments, CommentKey)
    ensures Get(DeleteComment(comments, id), id).Err?
    ensures other != id ==> Get(DeleteComment(comments, id), other) == Get(comments, other)
  {
    var rest := DeleteComment(comments, id);
    if other != id && HasComment(comments, other) {
      var a := Get(rest, other).value;
      var b := Get(comments, other).value;
      var i :| 0 <= i < |comments| && comments[i] == a;
      var j :| 0 <= j < |comments| && comments[j] == b;
      assert CommentKey(comments[i]) == CommentKey(comments[j]);
    }
  }
}
