/** The User entity (models/user.js): authenticate, register, list, look
    up with the user's subscriptions, subscribers and videos, partially
    update and delete, over the `users` table. Password hashing and its
    comparison are parameters. */
module Users {
  import opened Results
  import opened Js
  import opened Query
  import opened PartialUpdate
  import opened Store

  /** `LIMIT 250` of the list query. */
  const MaxRows: nat := 250

  /** A user as every query but the login lookup returns it: no password. */
  datatype PublicUser = PublicUser(
    username: string,
    createdAt: nat,
    firstName: string,
    lastName: string,
    email: string,
    avatarImage: Option<string>,
    coverImage: Option<string>,
    about: Option<string>)

  function Public(u: UserRow): (p: PublicUser)
    ensures p.username == u.username && p.createdAt == u.createdAt
    ensures p.firstName == u.firstName && p.lastName == u.lastName && p.email == u.email
    ensures p.avatarImage == u.avatarImage && p.coverImage == u.coverImage && p.about == u.about
  {
    PublicUser(u.username, u.createdAt, u.firstName, u.lastName, u.email, u.avatarImage, u.coverImage, u.about)
  }

  /** `SELECT ... FROM users WHERE username = $1` with a text name. */
  function Named(users: seq<UserRow>, username: string): (r: Option<UserRow>)
    ensures r.None? <==> !HasUser(users, username)
    ensures r.Some? ==> r.value in users && r.value.username == username
  {
    var r := First(users, (u: UserRow) => u.username == username);
    assert r.None? ==> forall u :: u in users ==> u.username != username;
    r
  }

  /** In a table unique by username, the lookup finds the one user of that
      name. */
  lemma NamedUnique(users: seq<UserRow>, u: UserRow)
    requires Unique(users, UserName) && u in users
    ensures Named(users, u.username) == Some(u)
  {
    var v := Named(users, u.username).value;
    var i :| 0 <= i < |users| && users[i] == u;
    var j :| 0 <= j < |users| && users[j] == v;
    assert UserName(users[i]) == UserName(users[j]);
  }

  // ---------------------------------------------------------- authenticate

  /** `User.authenticate`: the user of that name, without the password,
      when `matches(password, stored hash)` (bcrypt's compare) holds;
      Unauthorized otherwise, for a missing user and a wrong password
      alike. */
  function Authenticate(users: seq<UserRow>, username: string, password: string,
                        matches: (string, string) -> bool): (r: Result<PublicUser>)
    ensures r.Ok? ==> exists u :: u in users && u.username == username && matches(password, u.password) && r.value == Public(u)
    ensures r.Err? ==> r.error == Unauthorized("Invalid username/password combination")
    ensures !HasUser(users, username) ==> r.Err?
  {
    match Named(users, username)
    case Some(u) =>
      if matches(password, u.password) then Ok(Public(u))
      else Err(Unauthorized("Invalid username/password combination"))
    case None => Err(Unauthorized("Invalid username/password combination"))
  }

  /** With usernames unique, login succeeds exactly for a stored user whose
      hash the password matches. */
  lemma AuthenticateExact(users: seq<UserRow>, username: string, password: string, matches: (string, string) -> bool)
    requires Unique(users, UserName)
    ensures Authenticate(users, username, password, matches).Ok? <==>
      exists u :: u in users && u.username == username && matches(password, u.password)
  {
    if u :| u in users && u.username == username && matches(password, u.password) {
      NamedUnique(users, u);
    }
  }

  // -------------------------------------------------------------- register

  /** What `register` returns: the columns of its RETURNING clause. */
  datatype Registered = Registered(username: string, createdAt: nat, firstName: string, lastName: string, email: string)

  /** The outcome of `User.register` for the row it would insert at stamp
      `stamp`: BadRequest for a taken username, else a row holding
      `hash(password)` and no images or about text. */
  function RegisterRow(users: seq<UserRow>, username: string, password: string, firstName: string,
                       lastName: string, email: string, hash: string -> string, stamp: nat): (r: Result<UserRow>)
    ensures HasUser(users, username) ==> r == Err(BadRequest("Username " + username + " already exists!"))
    ensures !HasUser(users, username) ==>
      r == Ok(UserRow(username, hash(password), stamp, firstName, lastName, email, None, None, None))
  {
    if Named(users, username).Some? then Err(BadRequest("Username " + username + " already exists!"))
    else Ok(UserRow(username, hash(password), stamp, firstName, lastName, email, None, None, None))
  }

  /** `User.register`: on success the row is appended and its RETURNING
      columns come back; on failure nothing changes. */
  method Register(db: Db, username: string, password: string, firstName: string, lastName: string, email: string,
                  hash: string -> string) returns (r: Result<Registered>)
    requires db.Valid()
    modifies db`users, db`clock
    ensures db.Valid()
    ensures var row := RegisterRow(old(db.users), username, password, firstName, lastName, email, hash, old(db.clock));
      if row.Ok? then
        && r == Ok(Registered(username, old(db.clock), firstName, lastName, email))
        && db.users == old(db.users) + [row.value] && db.clock == old(db.clock) + 1
      else r == Err(row.error) && db.users == old(db.users) && db.clock == old(db.clock)
  {
    var row := RegisterRow(db.users, username, password, firstName, lastName, email, hash, db.clock);
    if row.Ok? {
      var u := row.value;
      AddUser(db.users, db.videos, db.comments, db.likes, db.subscriptions, db.views,
              db.nextVideoId, db.nextCommentId, db.nextLikeId, db.nextSubscriptionId, db.nextViewId, db.clock, u);
      db.users := db.users + [u];
      db.clock := db.clock + 1;
      r := Ok(Registered(u.username, u.createdAt, u.firstName, u.lastName, u.email));
    } else {
      r := Err(row.error);
    }
  }

  /** A user just registered can log in with the same password, given that
      `matches` accepts a password against its own hash. */
  lemma RegisteredCanLogIn(users: seq<UserRow>, username: string, password: string, firstName: string,
                           lastName: string, email: string, hash: string -> string, matches: (string, string) -> bool,
                           stamp: nat)
    requires Unique(users, UserName)
    requires matches(password, hash(password))
    requires RegisterRow(users, username, password, firstName, lastName, email, hash, stamp).Ok?
    ensures Authenticate(users + [RegisterRow(users, username, password, firstName, lastName, email, hash, stamp).value],
                         username, password, matches).Ok?
  {
    var u := RegisterRow(users, username, password, firstName, lastName, email, hash, stamp).value;
    var s := users + [u];
    assert s[|users|] == u;
    assert forall i :: 0 <= i < |users| ==> s[i] == users[i] && users[i] in users;
    AuthenticateExact(s, username, password, matches);
  }

  /** Registering a name a second time is refused. */
  lemma RegisterTwiceFails(users: seq<UserRow>, username: string, password: string, firstName: string, lastName: string,
                           email: string, hash: string -> string, stamp: nat, password2: string, firstName2: string,
                           lastName2: string, email2: string, stamp2: nat)
    requires RegisterRow(users, username, password, firstName, lastName, email, hash, stamp).Ok?
    ensures var s := users + [RegisterRow(users, username, password, firstName, lastName, email, hash, stamp).value];
      RegisterRow(s, username, password2, firstName2, lastName2, email2, hash, stamp2).Err?
  {
    var u := RegisterRow(users, username, password, firstName, lastName, email, hash, stamp).value;
    assert (users + [u])[|users|] == u;
  }

  // ---------------------------------------------------------------- getAll

  /** `User.getAll`: the first 250 rows in `created_at` order, without
      passwords. */
  function GetAll(users: seq<UserRow>): (r: seq<PublicUser>)
    ensures |r| == if |users| <= MaxRows then |users| else MaxRows
    ensures forall i :: 0 <= i < |r| ==> r[i] == Public(users[i])
  {
    Map(Limit(users, MaxRows), Public)
  }

  /** Over a table in creation order, the list is in creation order and
      leaves out only users created after every listed one. */
  lemma GetAllOrdered(users: seq<UserRow>)
    requires Increasing(users, UserStamp)
    ensures forall i, j :: 0 <= i < j < |GetAll(users)| ==> GetAll(users)[i].createdAt < GetAll(users)[j].createdAt
    ensures forall i, u :: 0 <= i < |GetAll(users)| && u in users && Public(u) !in GetAll(users) ==>
      GetAll(users)[i].createdAt < u.createdAt
  {
    var r := GetAll(users);
    assert forall m :: 0 <= m < |r| ==> r[m] in r;
    forall i, j | 0 <= i < j < |r| ensures r[i].createdAt < r[j].createdAt {
      assert UserStamp(users[i]) < UserStamp(users[j]);
    }
    forall i, u | 0 <= i < |r| && u in users && Public(u) !in r ensures r[i].createdAt < u.createdAt {
      var k :| 0 <= k < |users| && users[k] == u;
      assert k >= |r|;
      assert UserStamp(users[i]) < UserStamp(users[k]);
    }
  }

  // ------------------------------------------------------------------- get

  /** What `User.get` returns: the public columns plus three lists. */
  datatype UserDetail = UserDetail(user: PublicUser, subscriptions: seq<string>, subscribers: seq<string>, videos: seq<nat>)

  function SubscribedTo(s: SubscriptionRow): string { s.subscribedToUsername }
  function Subscriber(s: SubscriptionRow): string { s.subscriberUsername }

  /** The names `username` subscribes to, in text order. */
  function SubscriptionsOf(subs: seq<SubscriptionRow>, username: string): (r: seq<string>)
    ensures SortedStrings(r)
    ensures |r| == |Where(subs, (s: SubscriptionRow) => s.subscriberUsername == username)|
    ensures forall n :: n in r <==> exists s :: s in subs && s.subscriberUsername == username && s.subscribedToUsername == n
  {
    var rows := Where(subs, (s: SubscriptionRow) => s.subscriberUsername == username);
    var names := Map(rows, SubscribedTo);
    MapIn(rows, SubscribedTo);
    SortStringsSame(names);
    SortStrings(names)
  }

  /** The names subscribing to `username`, in text order. */
  function SubscribersOf(subs: seq<SubscriptionRow>, username: string): (r: seq<string>)
    ensures SortedStrings(r)
    ensures |r| == |Where(subs, (s: SubscriptionRow) => s.subscribedToUsername == username)|
    ensures forall n :: n in r <==> exists s :: s in subs && s.subscribedToUsername == username && s.subscriberUsername == n
  {
    var rows := Where(subs, (s: SubscriptionRow) => s.subscribedToUsername == username);
    var names := Map(rows, Subscriber);
    MapIn(rows, Subscriber);
    SortStringsSame(names);
    SortStrings(names)
  }

  /** The ids of the videos `username` posted, in creation order. */
  function VideosOf(videos: seq<VideoRow>, username: string): (r: seq<nat>)
    ensures forall id :: id in r <==> exists v :: v in videos && v.username == username && v.id == id
  {
    var rows := Where(videos, (v: VideoRow) => v.username == username);
    MapIn(rows, (v: VideoRow) => v.id);
    Map(rows, (v: VideoRow) => v.id)
  }

  /** Over a table in creation order and in id order, a user's video ids
      come out strictly ascending. */
  lemma VideosOfOrdered(videos: seq<VideoRow>, username: string)
    requires Increasing(videos, VideoKey)
    ensures forall i, j :: 0 <= i < j < |VideosOf(videos, username)| ==> VideosOf(videos, username)[i] < VideosOf(videos, username)[j]
  {
    var rows := Where(videos, (v: VideoRow) => v.username == username);
    WhereIncreasing(videos, (v: VideoRow) => v.username == username, VideoKey);
    var r := VideosOf(videos, username);
    forall i, j | 0 <= i < j < |r| ensures r[i] < r[j] {
      assert VideoKey(rows[i]) < VideoKey(rows[j]);
    }
  }

  /** `User.get`: NotFound for an unknown name; otherwise the user without
      the password, the names it subscribes to and its subscribers (each in
      text order), and the ids of its videos. */
  function Get(users: seq<UserRow>, subs: seq<SubscriptionRow>, videos: seq<VideoRow>, username: string): (r: Result<UserDetail>)
    ensures r.Err? <==> !HasUser(users, username)
    ensures r.Err? ==> r.error == NotFound("No user with \"" + username + "\" found")
    ensures r.Ok? ==> exists u :: u in users && u.username == username && r.value.user == Public(u)
    ensures r.Ok? ==> r.value.subscriptions == SubscriptionsOf(subs, username)
    ensures r.Ok? ==> r.value.subscribers == SubscribersOf(subs, username)
    ensures r.Ok? ==> r.value.videos == VideosOf(videos, username)
  {
    match Named(users, username)
    case None => Err(NotFound("No user with \"" + username + "\" found"))
    case Some(u) =>
      Ok(UserDetail(Public(u), SubscriptionsOf(subs, username), SubscribersOf(subs, username), VideosOf(videos, username)))
  }

  /** A subscription made from `a` to `b` shows on both users' pages. */
  lemma SubscriptionShowsOnBothSides(users: seq<UserRow>, subs: seq<SubscriptionRow>, videos: seq<VideoRow>, s: SubscriptionRow)
    requires s in subs
    requires HasUser(users, s.subscriberUsername) && HasUser(users, s.subscribedToUsername)
    ensures s.subscribedToUsername in Get(users, subs, videos, s.subscriberUsername).value.subscriptions
    ensures s.subscriberUsername in Get(users, subs, videos, s.subscribedToUsername).value.subscribers
  {
  }

  // ---------------------------------------------------------------- update

  /** The property renaming `User.update` passes. */
  const JsToSql: Object := [
    ("firstName", Str("first_name")), ("lastName", Str("last_name")),
    ("avatarImage", Str("avatar_image")), ("coverImage", Str("cover_image"))]

  /** The text columns of `users` a SET clause can assign (the key column
      `username` is left to the WHERE clause). */
  const Columns: set<string> := {"password", "first_name", "last_name", "email", "avatar_image", "cover_image", "about"}

  function OptionValue(o: Option<string>): Value {
    match o
    case Some(s) => Str(s)
    case None => Null
  }

  /** A column of a row as a value; `undefined` for a name that is not an
      updatable column. */
  function ColumnValue(u: UserRow, c: string): Value {
    if c == "password" then Str(u.password)
    else if c == "first_name" then Str(u.firstName)
    else if c == "last_name" then Str(u.lastName)
    else if c == "email" then Str(u.email)
    else if c == "avatar_image" then OptionValue(u.avatarImage)
    else if c == "cover_image" then OptionValue(u.coverImage)
    else if c == "about" then OptionValue(u.about)
    else Undefined
  }

  function SetColumn(u: UserRow, c: string, x: string): UserRow {
    if c == "password" then u.(password := x)
    else if c == "first_name" then u.(firstName := x)
    else if c == "last_name" then u.(lastName := x)
    else if c == "email" then u.(email := x)
    else if c == "avatar_image" then u.(avatarImage := Some(x))
    else if c == "cover_image" then u.(coverImage := Some(x))
    else if c == "about" then u.(about := Some(x))
    else u
  }

  lemma SetColumnFacts()
    ensures SetsColumn(SetColumn, ColumnValue, Text, Columns)
    ensures Keeps(SetColumn, UserName) && Keeps(SetColumn, UserStamp)
  {
    forall u: UserRow, c: string, d: string, x: string | c in Columns
      ensures ColumnValue(SetColumn(u, c, x), d) == if d == c then Str(x) else ColumnValue(u, d)
    {
      var w := SetColumn(u, c, x);
      if c == "password" {
        assert w == u.(password := x);
      } else if c == "first_name" {
        assert w == u.(firstName := x);
      } else if c == "last_name" {
        assert w == u.(lastName := x);
      } else if c == "email" {
        assert w == u.(email := x);
      } else if c == "avatar_image" {
        assert w == u.(avatarImage := Some(x));
      } else if c == "cover_image" {
        assert w == u.(coverImage := Some(x));
      } else {
        assert w == u.(about := Some(x));
      }
    }
  }

  /** The payload names only updatable columns, none twice. */
  ghost predicate ColumnsOk(data: Payload) {
    var assigns := Renamed(data, JsToSql);
    DistinctColumns(assigns) && forall i :: 0 <= i < |assigns| ==> assigns[i].0 in Columns
  }

  /** `after` is `before` with exactly the payload's columns changed. */
  ghost predicate Updated(before: UserRow, after: UserRow, data: Payload) {
    && after.username == before.username && after.createdAt == before.createdAt
    && forall c :: ColumnValue(after, c) ==
         match Lookup(Renamed(data, JsToSql), c) case Some(x) => Str(x) case None => ColumnValue(before, c)
  }

  lemma UpdatedRow(u: UserRow, data: Payload)
    requires ColumnsOk(data)
    ensures Updated(u, ApplyAll(u, Renamed(data, JsToSql), SetColumn), data)
  {
    var assigns := Renamed(data, JsToSql);
    SetColumnFacts();
    ApplyAllKeeps(u, assigns, SetColumn, UserName);
    ApplyAllKeeps(u, assigns, SetColumn, UserStamp);
    forall c ensures ColumnValue(ApplyAll(u, assigns, SetColumn), c) ==
      match Lookup(assigns, c) case Some(x) => Str(x) case None => ColumnValue(u, c)
    {
      ApplyAllGet(u, assigns, SetColumn, ColumnValue, Text, Columns, c);
    }
  }

  /** The outcome of `User.update(username, data)`: "No data" for an empty
      payload, a database error for a column `users` cannot take, NotFound
      for an unknown name (the message is `No user with"<name>" found`,
      with no space before the quote), and
      otherwise the row with only the supplied columns changed. */
  function UpdateRow(users: seq<UserRow>, username: string, data: Payload): (r: Result<PublicUser>)
    ensures data == [] ==> r == Err(BadRequest("No data"))
    ensures data != [] && !ColumnsOk(data) ==> r.Err? && r.error.ServerError?
    ensures data != [] && ColumnsOk(data) && !HasUser(users, username) ==>
      r == Err(NotFound("No user with\"" + username + "\" found"))
    ensures r.Ok? <==> data != [] && ColumnsOk(data) && HasUser(users, username)
    ensures r.Ok? ==> exists u, after :: u in users && u.username == username && Updated(u, after, data) && r.value == Public(after)
  {
    match UpdatedUser(users, username, data)
    case Err(e) => Err(e)
    case Ok(after) => Ok(Public(after))
  }

  /** The full row `UPDATE users ... RETURNING` leaves behind. */
  function UpdatedUser(users: seq<UserRow>, username: string, data: Payload): (r: Result<UserRow>)
    ensures data == [] ==> r == Err(BadRequest("No data"))
    ensures data != [] && !ColumnsOk(data) ==> r.Err? && r.error.ServerError?
    ensures data != [] && ColumnsOk(data) && !HasUser(users, username) ==>
      r == Err(NotFound("No user with\"" + username + "\" found"))
    ensures r.Ok? <==> data != [] && ColumnsOk(data) && HasUser(users, username)
    ensures r.Ok? ==> exists u :: u in users && u.username == username && Updated(u, r.value, data)
  {
    match Build(data, JsToSql)
    case Err(e) => Err(e)
    case Ok(u) =>
      BindingFacts(data, JsToSql, username);
      var params := Bind(u, username);
      var assigns := Assignments(u, params);
      match CheckColumns(assigns, Columns)
      case Some(e) => Err(e)
      case None =>
        match Named(users, params[SelectorIndex(u) - 1])
        case None => Err(NotFound("No user with\"" + username + "\" found"))
        case Some(v) =>
          UpdatedRow(v, data);
          Ok(ApplyAll(v, assigns, SetColumn))
  }

  /** `UPDATE users ... WHERE username = $n`: the row of that name
      replaced. */
  function ReplaceUser(users: seq<UserRow>, username: string, row: UserRow): (r: seq<UserRow>)
    ensures |r| == |users|
    ensures forall i :: 0 <= i < |users| ==> r[i] == if users[i].username == username then row else users[i]
  {
    ReplaceWhere(users, (u: UserRow) => u.username == username, row)
  }

  /** Replacing the one row of a name by a row with the same name and stamp
      keeps every row's name and stamp. */
  lemma ReplaceKeeps(users: seq<UserRow>, username: string, v: UserRow, row: UserRow)
    requires Unique(users, UserName) && v in users && v.username == username
    requires row.username == v.username && row.createdAt == v.createdAt
    ensures forall i :: 0 <= i < |users| ==>
      UserStamp(ReplaceUser(users, username, row)[i]) == UserStamp(users[i])
      && UserName(ReplaceUser(users, username, row)[i]) == UserName(users[i])
  {
    var k :| 0 <= k < |users| && users[k] == v;
    assert forall i :: 0 <= i < k ==> UserName(users[i]) != UserName(users[k]);
    assert forall j :: k < j < |users| ==> UserName(users[k]) != UserName(users[j]);
  }

  /** A successful update keeps every row's name and stamp, and so keeps
      the store valid. */
  lemma UpdateKeeps(users: seq<UserRow>, videos: seq<VideoRow>, comments: seq<CommentRow>, likes: seq<LikeRow>,
                      subscriptions: seq<SubscriptionRow>, views: seq<ViewRow>, nextVideoId: nat, nextCommentId: nat,
                      nextLikeId: nat, nextSubscriptionId: nat, nextViewId: nat, clock: nat, username: string, data: Payload)
    requires Tables(users, videos, comments, likes, subscriptions, views,
                    nextVideoId, nextCommentId, nextLikeId, nextSubscriptionId, nextViewId, clock)
    requires UpdatedUser(users, username, data).Ok?
    ensures Tables(ReplaceUser(users, username, UpdatedUser(users, username, data).value), videos, comments, likes,
                   subscriptions, views, nextVideoId, nextCommentId, nextLikeId, nextSubscriptionId, nextViewId, clock)
  {
    var row := UpdatedUser(users, username, data).value;
    var v :| v in users && v.username == username && Updated(v, row, data);
    ReplaceKeeps(users, username, v, row);
    ReplaceUsers(users, videos, comments, likes, subscriptions, views,
                    nextVideoId, nextCommentId, nextLikeId, nextSubscriptionId, nextViewId, clock, ReplaceUser(users, username, row));
  }

  /** `User.update`: the table gets the updated row in place of the old one
      and is otherwise unchanged; on failure nothing changes. */
  method Update(db: Db, username: string, data: Payload) returns (r: Result<PublicUser>)
    requires db.Valid()
    modifies db`users
    ensures db.Valid()
    ensures r == UpdateRow(old(db.users), username, data)
    ensures var after := UpdatedUser(old(db.users), username, data);
      db.users == if after.Ok? then ReplaceUser(old(db.users), username, after.value) else old(db.users)
  {
    var row := UpdatedUser(db.users, username, data);
    if row.Ok? {
      UpdateKeeps(db.users, db.videos, db.comments, db.likes, db.subscriptions, db.views,
                         db.nextVideoId, db.nextCommentId, db.nextLikeId, db.nextSubscriptionId, db.nextViewId, db.clock, username, data);
      db.users := ReplaceUser(db.users, username, row.value);
      r := Ok(Public(row.value));
    } else {
      r := Err(row.error);
    }
  }

  // ---------------------------------------------------------------- remove

  /** `DELETE FROM users WHERE username = $1`: every other row stays. */
  function DeleteUser(users: seq<UserRow>, username: string): (r: seq<UserRow>)
    ensures forall u :: u in r <==> u in users && u.username != username
  {
    Where(users, (u: UserRow) => u.username != username)
  }

  /** `User.remove`: NotFound when no user has that name; the row is deleted
      and nothing else in `users` changes. */
  method Remove(db: Db, username: string) returns (r: Result<()>)
    requires db.Valid()
    modifies db`users
    ensures db.Valid()
    ensures r.Err? <==> !HasUser(old(db.users), username)
    ensures r.Err? ==> r.error == NotFound("No user with \"" + username + "\" found")
    ensures db.users == DeleteUser(old(db.users), username)
  {
    var returning := Named(db.users, username);
    var p := (u: UserRow) => u.username != username;
    WhereIncreasing(db.users, p, UserStamp);
    BelowLast(db.users, UserStamp, db.clock);
    WhereBelow(db.users, p, UserStamp, db.clock);
    BelowLast(Where(db.users, p), UserStamp, db.clock);
    UniqueWhere(db.users, p, UserName);
    db.users := DeleteUser(db.users, username);
    if returning.None? {
      r := Err(NotFound("No user with \"" + username + "\" found"));
    } else {
      r := Ok(());
    }
  }

  /** After `remove` nobody can log in under that name. */
  lemma RemovedCannotLogIn(users: seq<UserRow>, username: string, password: string, matches: (string, string) -> bool)
    ensures Authenticate(DeleteUser(users, username), username, password, matches).Err?
  {
  }
}
