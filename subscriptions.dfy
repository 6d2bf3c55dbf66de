/** The Subscription entity (models/subscription.js): subscribe, list with
    the subscribed-to user's images, and unsubscribe over the
    `subscriptions` table. A pair is subscribed at most once. */
module Subscriptions {
  import opened Results
  import opened Js
  import opened Query
  import opened Store

  /** `LIMIT 500` of the list query. */
  const MaxRows: nat := 500

  ghost predicate Subscribed(subs: seq<SubscriptionRow>, subscriber: string, subscribedTo: string) {
    exists s :: s in subs && s.subscriberUsername == subscriber && s.subscribedToUsername == subscribedTo
  }

  // ---------------------------------------------------------------- create

  /** The outcome of `Subscription.create` for the row it would insert under
      serial `id` and stamp `stamp`: both users must exist, then the pair
      must be new. */
  function CreateRow(users: seq<UserRow>, subs: seq<SubscriptionRow>, subscriber: string, subscribedTo: string,
                     id: nat, stamp: nat): (r: Result<SubscriptionRow>)
    ensures !(HasUser(users, subscriber) && HasUser(users, subscribedTo)) ==>
      r == Err(NotFound("Both users must already exist!"))
    ensures HasUser(users, subscriber) && HasUser(users, subscribedTo) && Subscribed(subs, subscriber, subscribedTo) ==>
      r == Err(BadRequest("This subscription already exists!"))
    ensures HasUser(users, subscriber) && HasUser(users, subscribedTo) && !Subscribed(subs, subscriber, subscribedTo) ==>
      r == Ok(SubscriptionRow(id, stamp, subscriber, subscribedTo))
  {
    var subscriberCheck := UsersNamed(users, Some(subscriber));
    var subscribedToCheck := UsersNamed(users, Some(subscribedTo));
    if |subscriberCheck| == 0 || |subscribedToCheck| == 0 then
      Err(NotFound("Both users must already exist!"))
    else
      assert subscriberCheck[0] in subscriberCheck && subscribedToCheck[0] in subscribedToCheck;
      var dupCheck := Where(subs, (s: SubscriptionRow) =>
        s.subscriberUsername == subscriber && s.subscribedToUsername == subscribedTo);
      if |dupCheck| > 0 then
        assert dupCheck[0] in dupCheck;
        Err(BadRequest("This subscription already exists!"))
      else
        Ok(SubscriptionRow(id, stamp, subscriber, subscribedTo))
  }

  /** `create` never produces a second subscription for the same pair: the
      new row's pair is the pair of no stored row. */
  lemma CreatePairIsNew(users: seq<UserRow>, subs: seq<SubscriptionRow>, subscriber: string, subscribedTo: string,
                        id: nat, stamp: nat)
    requires CreateRow(users, subs, subscriber, subscribedTo, id, stamp).Ok?
    ensures forall i :: 0 <= i < |subs| ==>
      SubscriptionPair(subs[i]) != SubscriptionPair(CreateRow(users, subs, subscriber, subscribedTo, id, stamp).value)
  {
    var row := CreateRow(users, subs, subscriber, subscribedTo, id, stamp).value;
    forall i | 0 <= i < |subs| ensures SubscriptionPair(subs[i]) != SubscriptionPair(row) {
      assert subs[i] in subs;
    }
  }

  /** `Subscription.create`: on success the new row is appended; on failure
      nothing changes. */
  method Create(db: Db, subscriber: string, subscribedTo: string) returns (r: Result<SubscriptionRow>)
    requires db.Valid()
    modifies db`subscriptions, db`nextSubscriptionId, db`clock
    ensures db.Valid()
    ensures r == CreateRow(old(db.users), old(db.subscriptions), subscriber, subscribedTo, old(db.nextSubscriptionId), old(db.clock))
    ensures r.Ok? ==>
      db.subscriptions == old(db.subscriptions) + [r.value]
      && db.nextSubscriptionId == old(db.nextSubscriptionId) + 1 && db.clock == old(db.clock) + 1
    ensures r.Err? ==>
      db.subscriptions == old(db.subscriptions) && db.nextSubscriptionId == old(db.nextSubscriptionId) && db.clock == old(db.clock)
  {
    r := CreateRow(db.users, db.subscriptions, subscriber, subscribedTo, db.nextSubscriptionId, db.clock);
    if r.Ok? {
      CreatePairIsNew(db.users, db.subscriptions, subscriber, subscribedTo, db.nextSubscriptionId, db.clock);
      AddSubscription(db.users, db.videos, db.comments, db.likes, db.subscriptions, db.views,
              db.nextVideoId, db.nextCommentId, db.nextLikeId, db.nextSubscriptionId, db.nextViewId, db.clock, r.value);
      db.subscriptions := db.subscriptions + [r.value];
      db.nextSubscriptionId := db.nextSubscriptionId + 1;
      db.clock := db.clock + 1;
    }
  }

  // --------------------------------------------------------------- getAll

  /** The row filter of `getAll`: `subscriberUsername` if truthy, else
      `subscribedToUsername` if truthy, else every row. */
  predicate Matches(filter: Object, s: SubscriptionRow) {
    var subscriber := Prop(filter, "subscriberUsername");
    var subscribedTo := Prop(filter, "subscribedToUsername");
    if Truthy(subscriber) then s.subscriberUsername == Display(subscriber)
    else if Truthy(subscribedTo) then s.subscribedToUsername == Display(subscribedTo)
    else true
  }

  /** `Object.values(filter)[0]`: the value of the FIRST property, whatever
      its name; `undefined` for an empty filter. */
  function FirstValue(filter: Object): (v: Value)
    ensures filter == [] ==> v == Undefined
  {
    if filter == [] then Undefined else filter[0].1
  }

  /** `${Object.values(filter)}`: the values joined with commas, with null
      and undefined rendered empty. */
  function ValuesText(filter: Object): string {
    if filter == [] then ""
    else
      var head := match filter[0].1 case Undefined => "" case Null => "" case v => Display(v);
      if |filter| == 1 then head else head + "," + ValuesText(filter[1..])
  }

  /** One of the two filter keys is truthy. */
  predicate Recognised(filter: Object) {
    Truthy(Prop(filter, "subscriberUsername")) || Truthy(Prop(filter, "subscribedToUsername"))
  }

  ghost predicate KnownFirstValue(users: seq<UserRow>, filter: Object) {
    exists u :: u in users && Some(u.username) == SqlParam(FirstValue(filter))
  }

  /** `WHERE ... ORDER BY created_at LIMIT 500` of the list query. */
  function Listed(subs: seq<SubscriptionRow>, filter: Object): (r: seq<SubscriptionRow>)
    ensures |r| <= MaxRows
    ensures forall s :: s in r ==> s in subs && Matches(filter, s)
    ensures |r| < MaxRows ==> forall s :: s in subs && Matches(filter, s) ==> s in r
  {
    SelectFacts(subs, (s: SubscriptionRow) => Matches(filter, s), MaxRows);
    Select(subs, (s: SubscriptionRow) => Matches(filter, s), MaxRows)
  }

  /** The rows `Subscription.getAll` lists before it adds the images: a
      non-empty filter without a truthy recognised key is refused; a
      non-empty filter whose first value names no user is NotFound;
      otherwise the listed rows. */
  function Rows(users: seq<UserRow>, subs: seq<SubscriptionRow>, filter: Object): (r: Result<seq<SubscriptionRow>>)
    ensures |filter| > 0 && !Truthy(Prop(filter, "subscriberUsername")) && !Truthy(Prop(filter, "subscribedToUsername")) ==>
      r == Err(BadRequest("Filter must be either 'subscriberUsername' or 'subscribedToUsername'"))
    ensures |filter| > 0 && Recognised(filter) && !KnownFirstValue(users, filter) ==>
      r == Err(NotFound("No user with username: " + ValuesText(filter) + " found"))
    ensures r.Ok? <==> |filter| == 0 || (Recognised(filter) && KnownFirstValue(users, filter))
    ensures r.Ok? ==> r.value == Listed(subs, filter)
  {
    if |filter| > 0 && !(Truthy(Prop(filter, "subscriberUsername")) || Truthy(Prop(filter, "subscribedToUsername"))) then
      Err(BadRequest("Filter must be either 'subscriberUsername' or 'subscribedToUsername'"))
    else
      var userCheck := UsersNamed(users, SqlParam(FirstValue(filter)));
      if |filter| > 0 && |userCheck| == 0 then
        Err(NotFound("No user with username: " + ValuesText(filter) + " found"))
      else
        assert |filter| > 0 ==> userCheck[0] in userCheck;
        Ok(Listed(subs, filter))
  }

  /** The list is in creation order and, when cut at 500, holds the oldest
      matching subscriptions. */
  lemma ListedOrdered(subs: seq<SubscriptionRow>, filter: Object)
    requires Increasing(subs, SubscriptionStamp)
    ensures Increasing(Listed(subs, filter), SubscriptionStamp)
    ensures forall x, y ::
      x in subs && Matches(filter, x) && x !in Listed(subs, filter) && y in Listed(subs, filter) ==> y.createdAt < x.createdAt
  {
    SelectOrdered(subs, (s: SubscriptionRow) => Matches(filter, s), MaxRows, SubscriptionStamp);
  }

  /** A truthy `subscriberUsername` takes precedence over
      `subscribedToUsername`. */
  lemma SubscriberWins(subs: seq<SubscriptionRow>, filter: Object)
    requires Truthy(Prop(filter, "subscriberUsername"))
    ensures Listed(subs, filter) == Listed(subs, [("subscriberUsername", Prop(filter, "subscriberUsername"))])
  {
    var alone: Object := [("subscriberUsername", Prop(filter, "subscriberUsername"))];
    WhereSame(subs, (s: SubscriptionRow) => Matches(filter, s), (s: SubscriptionRow) => Matches(alone, s));
  }

  /** The existence check reads the first property, not the recognised
      one: an unrelated first property makes an existing subscriber
      NotFound. */
  lemma FirstPropertyIsChecked(u: UserRow, subs: seq<SubscriptionRow>)
    requires u.username != "" && u.username != "x"
    ensures Rows([u], subs, [("x", Str("x")), ("subscriberUsername", Str(u.username))]).Err?
    ensures Rows([u], subs, [("subscriberUsername", Str(u.username))]).Ok?
  {
    var f: Object := [("x", Str("x")), ("subscriberUsername", Str(u.username))];
    assert Absent(f[..1], "subscriberUsername");
    assert Prop(f, "subscriberUsername") == Str(u.username);
    assert FirstValue(f) == Str("x");
    var g: Object := [("subscriberUsername", Str(u.username))];
    assert Recognised(g) by {
      assert Prop(g, "subscriberUsername") == Str(u.username);
    }
    assert KnownFirstValue([u], g) by {
      assert u in [u] && SqlParam(FirstValue(g)) == Some(u.username);
    }
  }

  /** The images of a user as the enrichment query returns them. */
  datatype Images = Images(userAvatar: Option<string>, userHeader: Option<string>)

  /** A listed row with its `userImages`; None when the query found no user
      (`res.rows[0]` is undefined). */
  datatype Listing = Listing(row: SubscriptionRow, userImages: Option<Images>)

  /** `SELECT avatar_image, cover_image FROM users WHERE username=$1 LIMIT 1`. */
  function ImagesOf(users: seq<UserRow>, name: string): (r: Option<Images>)
    ensures r.None? <==> !HasUser(users, name)
    ensures r.Some? ==> exists u :: u in users && u.username == name && r.value == Images(u.avatarImage, u.coverImage)
  {
    match First(users, (u: UserRow) => u.username == name)
    case None => None
    case Some(u) => Some(Images(u.avatarImage, u.coverImage))
  }

  /** `Subscription.getAll`: the checks of `Rows`, then every listed row, in
      order, carrying the images of its subscribed-to user. */
  method GetAll(users: seq<UserRow>, subs: seq<SubscriptionRow>, filter: Object) returns (r: Result<seq<Listing>>)
    ensures Rows(users, subs, filter).Err? ==> r == Err(Rows(users, subs, filter).error)
    ensures Rows(users, subs, filter).Ok? ==> r.Ok? && |r.value| == |Rows(users, subs, filter).value|
    ensures Rows(users, subs, filter).Ok? ==> forall i :: 0 <= i < |r.value| ==>
      var row := Rows(users, subs, filter).value[i];
      r.value[i] == Listing(row, ImagesOf(users, row.subscribedToUsername))
  {
    match Rows(users, subs, filter)
    case Err(e) =>
      r := Err(e);
    case Ok(rows) =>
      var out := AddImages(users, rows);
      r := Ok(out);
  }

  /** The enrichment loop: one images query per listed row, in order. */
  method AddImages(users: seq<UserRow>, rows: seq<SubscriptionRow>) returns (out: seq<Listing>)
    ensures |out| == |rows|
    ensures forall k :: 0 <= k < |rows| ==> out[k] == Listing(rows[k], ImagesOf(users, rows[k].subscribedToUsername))
  {
    out := [];
    var i := 0;
    while i < |rows|
      invariant 0 <= i <= |rows|
      invariant |out| == i
      invariant forall k :: 0 <= k < i ==> out[k] == Listing(rows[k], ImagesOf(users, rows[k].subscribedToUsername))
    {
      out := out + [Listing(rows[i], ImagesOf(users, rows[i].subscribedToUsername))];
      i := i + 1;
    }
  }

  // ---------------------------------------------------------- unsubscribe

  /** `DELETE FROM subscriptions WHERE subscriber_username = $1 AND
      subscribed_to_username = $2`. */
  function DeleteSubscription(subs: seq<SubscriptionRow>, subscriber: string, subscribedTo: string): (r: seq<SubscriptionRow>)
    ensures forall s :: s in r <==> s in subs && !(s.subscriberUsername == subscriber && s.subscribedToUsername == subscribedTo)
  {
    Where(subs, (s: SubscriptionRow) => !(s.subscriberUsername == subscriber && s.subscribedToUsername == subscribedTo))
  }

  /** `Subscription.unsubscribe`: NotFound when the pair is not subscribed;
      the pair's row is deleted and every other subscription stays. */
  method Unsubscribe(db: Db, subscriber: string, subscribedTo: string) returns (r: Result<()>)
    requires db.Valid()
    modifies db`subscriptions
    ensures db.Valid()
    ensures r.Err? <==> !Subscribed(old(db.subscriptions), subscriber, subscribedTo)
    ensures r.Err? ==> r.error == NotFound("No subscription found")
    ensures db.subscriptions == DeleteSubscription(old(db.subscriptions), subscriber, subscribedTo)
  {
    var returning := Where(db.subscriptions, (s: SubscriptionRow) =>
      s.subscriberUsername == subscriber && s.subscribedToUsername == subscribedTo);
    var keep := (s: SubscriptionRow) => !(s.subscriberUsername == subscriber && s.subscribedToUsername == subscribedTo);
    SerialWhere(db.subscriptions, keep, SubscriptionStamp, SubscriptionKey, db.clock, db.nextSubscriptionId);
    UniqueWhere(db.subscriptions, keep, SubscriptionPair);
    db.subscriptions := DeleteSubscription(db.subscriptions, subscriber, subscribedTo);
    if |returning| == 0 {
      r := Err(NotFound("No subscription found"));
    } else {
      assert returning[0] in returning;
      r := Ok(());
    }
  }

  /** `unsubscribe` undoes a successful `create`: the table is as before. */
  lemma UnsubscribeUndoesCreate(users: seq<UserRow>, subs: seq<SubscriptionRow>, subscriber: string, subscribedTo: string,
                                id: nat, stamp: nat)
    requires CreateRow(users, subs, subscriber, subscribedTo, id, stamp).Ok?
    ensures DeleteSubscription(subs + [CreateRow(users, subs, subscriber, subscribedTo, id, stamp).value], subscriber, subscribedTo) == subs
  {
    var row := CreateRow(users, subs, subscriber, subscribedTo, id, stamp).value;
    var keep := (s: SubscriptionRow) => !(s.subscriberUsername == subscriber && s.subscribedToUsername == subscribedTo);
    WhereSnoc(subs, row, keep);
    forall i | 0 <= i < |subs| ensures keep(subs[i]) {
      assert subs[i] in subs;
    }
    WhereAll(subs, keep);
  }
}
