/** The VideoLike entity (models/videoLike.js): like, list and unlike over
    the `videoLikes` table. A user likes a video at most once. */
module VideoLikes {
  import opened Results
  import opened Js
  import opened Query
  import opened Store
  import opened Pg

  /** `LIMIT 500` of the list query. */
  const MaxRows: nat := 500

  /** Some like of `username` for `videoId` exists. */
  ghost predicate Liked(likes: seq<LikeRow>, username: string, videoId: int) {
    exists l :: l in likes && l.username == username && l.videoId == videoId
  }

  // ---------------------------------------------------------------- create

  /** The outcome of `VideoLike.create` for the row it would insert under
      serial `id` and stamp `stamp`: the username is checked first, then the
      video, then the pair. */
  function CreateRow(users: seq<UserRow>, videos: seq<VideoRow>, likes: seq<LikeRow>,
                     username: string, videoId: int, id: nat, stamp: nat): (r: Result<LikeRow>)
    ensures !HasUser(users, username) ==> r == Err(NotFound("Invalid username."))
    ensures HasUser(users, username) && !HasVideo(videos, videoId) ==> r == Err(NotFound("Invalid video id."))
    ensures HasUser(users, username) && HasVideo(videos, videoId) && Liked(likes, username, videoId) ==>
      r == Err(BadRequest("This video like already exists!"))
    ensures HasUser(users, username) && HasVideo(videos, videoId) && !Liked(likes, username, videoId) ==>
      r == Ok(LikeRow(id, stamp, username, videoId))
  {
    var usernameCheck := UsersNamed(users, Some(username));
    var videoIdCheck := Where(videos, (v: VideoRow) => v.id == videoId);
    if |usernameCheck| == 0 then Err(NotFound("Invalid username."))
    else
      assert usernameCheck[0] in usernameCheck;
      if |videoIdCheck| == 0 then Err(NotFound("Invalid video id."))
      else
        assert videoIdCheck[0] in videoIdCheck;
        var dupCheck := Where(likes, (l: LikeRow) => l.username == username && l.videoId == videoId);
        if |dupCheck| > 0 then
          assert dupCheck[0] in dupCheck;
          Err(BadRequest("This video like already exists!"))
        else
          Ok(LikeRow(id, stamp, username, videoId))
  }

  /** `create` never produces a second like for the same pair: the new
      row's pair is the pair of no stored row. */
  lemma CreatePairIsNew(users: seq<UserRow>, videos: seq<VideoRow>, likes: seq<LikeRow>,
                        username: string, videoId: int, id: nat, stamp: nat)
    requires CreateRow(users, videos, likes, username, videoId, id, stamp).Ok?
    ensures forall i :: 0 <= i < |likes| ==>
      LikePair(likes[i]) != LikePair(CreateRow(users, videos, likes, username, videoId, id, stamp).value)
  {
    var row := CreateRow(users, videos, likes, username, videoId, id, stamp).value;
    forall i | 0 <= i < |likes| ensures LikePair(likes[i]) != LikePair(row) {
      assert likes[i] in likes;
    }
  }

  /** `VideoLike.create`: on success the new row is appended; on failure
      nothing changes. */
  method Create(db: Db, username: string, videoId: int) returns (r: Result<LikeRow>)
    requires db.Valid()
    modifies db`likes, db`nextLikeId, db`clock
    ensures db.Valid()
    ensures r == CreateRow(old(db.users), old(db.videos), old(db.likes), username, videoId, old(db.nextLikeId), old(db.clock))
    ensures r.Ok? ==>
      db.likes == old(db.likes) + [r.value] && db.nextLikeId == old(db.nextLikeId) + 1 && db.clock == old(db.clock) + 1
    ensures r.Err? ==> db.likes == old(db.likes) && db.nextLikeId == old(db.nextLikeId) && db.clock == old(db.clock)
  {
    r := CreateRow(db.users, db.videos, db.likes, username, videoId, db.nextLikeId, db.clock);
    if r.Ok? {
      CreatePairIsNew(db.users, db.videos, db.likes, username, videoId, db.nextLikeId, db.clock);
      AddLike(db.users, db.videos, db.comments, db.likes, db.subscriptions, db.views,
              db.nextVideoId, db.nextCommentId, db.nextLikeId, db.nextSubscriptionId, db.nextViewId, db.clock, r.value);
      db.likes := db.likes + [r.value];
      db.nextLikeId := db.nextLikeId + 1;
      db.clock := db.clock + 1;
    }
  }

  // --------------------------------------------------------------- getAll

  /** The row filter of `getAll`: `username` if truthy, else `videoId` if
      truthy (its text read as an integer, as Postgres reads the quoted
      literal compared with `video_id`), else every row. */
  predicate Matches(filter: Object, l: LikeRow) {
    var username := Prop(filter, "username");
    var videoId := Prop(filter, "videoId");
    if Truthy(username) then l.username == Display(username)
    else if Truthy(videoId) then ParseInt(Display(videoId)) == Some(l.videoId)
    else true
  }

  /** The filter compares `video_id` with text that is no integer. */
  predicate BadVideoId(filter: Object) {
    !Truthy(Prop(filter, "username")) && Truthy(Prop(filter, "videoId")) && ParseInt(Display(Prop(filter, "videoId"))).None?
  }

  /** The rows `getAll` lists once the filter is accepted: at most 500
      matching rows, and every matching row when fewer come back. */
  function Listed(likes: seq<LikeRow>, filter: Object): (r: seq<LikeRow>)
    ensures |r| <= MaxRows
    ensures forall l :: l in r ==> l in likes && Matches(filter, l)
    ensures |r| < MaxRows ==> forall l :: l in likes && Matches(filter, l) ==> l in r
  {
    SelectFacts(likes, (l: LikeRow) => Matches(filter, l), MaxRows);
    Select(likes, (l: LikeRow) => Matches(filter, l), MaxRows)
  }

  /** `VideoLike.getAll`: a non-empty filter with neither a truthy
      `username` nor a truthy `videoId` is refused; a `videoId` that is no
      integer is a database error; otherwise at most 500 matching rows,
      and every matching row when fewer come back. */
  function GetAll(likes: seq<LikeRow>, filter: Object): (r: Result<seq<LikeRow>>)
    ensures r.Err? <==>
      (|filter| > 0 && !Truthy(Prop(filter, "username")) && !Truthy(Prop(filter, "videoId"))) || BadVideoId(filter)
    ensures r.Err? && !BadVideoId(filter) ==> r.error == BadRequest("Filter must be either 'username' or 'videoId'")
    ensures BadVideoId(filter) ==> r == Err(BadInteger)
    ensures r.Ok? ==> r.value == Listed(likes, filter)
  {
    if |filter| > 0 && !(Truthy(Prop(filter, "username")) || Truthy(Prop(filter, "videoId"))) then
      Err(BadRequest("Filter must be either 'username' or 'videoId'"))
    else if BadVideoId(filter) then
      Err(BadInteger)
    else
      Ok(Listed(likes, filter))
  }

  /** Filtering by the text of a video id lists the likes of the video the
      text denotes, whatever its spelling; text that is no integer is a
      database error. */
  lemma VideoIdText(likes: seq<LikeRow>, text: string)
    requires text != ""
    ensures GetAll(likes, [("videoId", Str(text))]).Ok? <==> ParseInt(text).Some?
    ensures ParseInt(text).None? ==> GetAll(likes, [("videoId", Str(text))]) == Err(BadInteger)
    ensures forall l :: Matches([("videoId", Str(text))], l) <==> ParseInt(text) == Some(l.videoId)
  {
  }

  /** The list is in creation order and, when cut at 500, holds the oldest
      matching likes. */
  lemma ListedOrdered(likes: seq<LikeRow>, filter: Object)
    requires Increasing(likes, LikeStamp)
    ensures Increasing(Listed(likes, filter), LikeStamp)
    ensures forall x, y ::
      x in likes && Matches(filter, x) && x !in Listed(likes, filter) && y in Listed(likes, filter) ==> y.createdAt < x.createdAt
  {
    SelectOrdered(likes, (l: LikeRow) => Matches(filter, l), MaxRows, LikeStamp);
  }

  /** A truthy `username` takes precedence over `videoId`. */
  lemma UsernameWins(likes: seq<LikeRow>, filter: Object)
    requires Truthy(Prop(filter, "username"))
    ensures GetAll(likes, filter) == GetAll(likes, [("username", Prop(filter, "username"))])
  {
    var alone: Object := [("username", Prop(filter, "username"))];
    WhereSame(likes, (l: LikeRow) => Matches(filter, l), (l: LikeRow) => Matches(alone, l));
  }

  /** There is no existence check: a username nobody liked with lists
      nothing, without an error. */
  lemma UnknownUserListsNothing(likes: seq<LikeRow>, username: string)
    requires username != ""
    requires forall l :: l in likes ==> l.username != username
    ensures GetAll(likes, [("username", Str(username))]) == Ok([])
  {
    var f: Object := [("username", Str(username))];
    assert Prop(f, "username") == Str(username);
    var r := GetAll(likes, f).value;
    EmptyIff(r);
  }

  // --------------------------------------------------------------- unlike

  /** `DELETE FROM videoLikes WHERE username = $1 AND video_id = $2`. */
  function DeleteLike(likes: seq<LikeRow>, username: string, videoId: int): (r: seq<LikeRow>)
    ensures forall l :: l in r <==> l in likes && !(l.username == username && l.videoId == videoId)
  {
    Where(likes, (l: LikeRow) => !(l.username == username && l.videoId == videoId))
  }

  /** `VideoLike.unlike`: NotFound when the pair is not liked; the pair's
      like is deleted and every other like stays. */
  method Unlike(db: Db, username: string, videoId: int) returns (r: Result<()>)
    requires db.Valid()
    modifies db`likes
    ensures db.Valid()
    ensures r.Err? <==> !Liked(old(db.likes), username, videoId)
    ensures r.Err? ==> r.error == NotFound("No video like found")
    ensures db.likes == DeleteLike(old(db.likes), username, videoId)
  {
    var returning := Where(db.likes, (l: LikeRow) => l.username == username && l.videoId == videoId);
    var keep := (l: LikeRow) => !(l.username == username && l.videoId == videoId);
    SerialWhere(db.likes, keep, LikeStamp, LikeKey, db.clock, db.nextLikeId);
    UniqueWhere(db.likes, keep, LikePair);
    db.likes := DeleteLike(db.likes, username, videoId);
    if |returning| == 0 {
      r := Err(NotFound("No video like found"));
    } else {
      assert returning[0] in returning;
      r := Ok(());
    }
  }

  // ------------------------------------------------------ across operations

  /** `unlike` undoes a successful `create`: the table is as before. */
  lemma UnlikeUndoesCreate(users: seq<UserRow>, videos: seq<VideoRow>, likes: seq<LikeRow>,
                           username: string, videoId: int, id: nat, stamp: nat)
    requires CreateRow(users, videos, likes, username, videoId, id, stamp).Ok?
    ensures DeleteLike(likes + [CreateRow(users, videos, likes, username, videoId, id, stamp).value], username, videoId) == likes
  {
    var row := CreateRow(users, videos, likes, username, videoId, id, stamp).value;
    var keep := (l: LikeRow) => !(l.username == username && l.videoId == videoId);
    WhereSnoc(likes, row, keep);
    forall i | 0 <= i < |likes| ensures keep(likes[i]) {
      assert likes[i] in likes;
    }
    WhereAll(likes, keep);
  }
}
