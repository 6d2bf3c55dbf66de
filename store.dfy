/** The database the models query: one table per entity, each a sequence
    of rows in insertion order, serial ids drawn from per-table counters,
    and one clock that stamps `created_at` on every insert. */
module Store {
  import opened Results
  import opened Query

  /** A row of `users`. Columns that default to NULL are options. */
  datatype UserRow = UserRow(
    username: string,
    password: string,
    createdAt: nat,
    firstName: string,
    lastName: string,
    email: string,
    avatarImage: Option<string>,
    coverImage: Option<string>,
    about: Option<string>)

  datatype VideoRow = VideoRow(
    id: nat,
    createdAt: nat,
    title: string,
    url: string,
    description: string,
    username: string,
    thumbnailImage: Option<string>)

  datatype CommentRow = CommentRow(id: nat, createdAt: nat, username: string, videoId: int, content: string)

  datatype LikeRow = LikeRow(id: nat, createdAt: nat, username: string, videoId: int)

  datatype SubscriptionRow = SubscriptionRow(id: nat, createdAt: nat, subscriberUsername: string, subscribedToUsername: string)

  /** A row of `views`; an anonymous view has no username. */
  datatype ViewRow = ViewRow(id: nat, createdAt: nat, username: Option<string>, videoId: int)

  // The columns the ordering and uniqueness facts are stated over.
  function UserStamp(u: UserRow): int { u.createdAt }
  function UserName(u: UserRow): string { u.username }
  function VideoStamp(v: VideoRow): int { v.createdAt }
  function VideoKey(v: VideoRow): int { v.id }
  function CommentStamp(c: CommentRow): int { c.createdAt }
  function CommentKey(c: CommentRow): int { c.id }
  function LikeStamp(l: LikeRow): int { l.createdAt }
  function LikeKey(l: LikeRow): int { l.id }
  function LikePair(l: LikeRow): (string, int) { (l.username, l.videoId) }
  function SubscriptionStamp(s: SubscriptionRow): int { s.createdAt }
  function SubscriptionKey(s: SubscriptionRow): int { s.id }
  function SubscriptionPair(s: SubscriptionRow): (string, string) { (s.subscriberUsername, s.subscribedToUsername) }
  function ViewStamp(v: ViewRow): int { v.createdAt }
  function ViewKey(v: ViewRow): int { v.id }

  /** A table with a serial id: rows in creation order and in id order,
      every stamp before the clock and every id below the next serial
      (stated on the last row, which bounds the others). */
  ghost predicate Serial<T>(s: seq<T>, stamp: T -> int, id: T -> int, clock: nat, next: nat) {
    Increasing(s, stamp) && LastBelow(s, stamp, clock) && Increasing(s, id) && LastBelow(s, id, next)
  }

  /** `SELECT * FROM users WHERE username=$1` with `name` bound (None is
      SQL NULL, which matches no row). */
  function UsersNamed(users: seq<UserRow>, name: Option<string>): (r: seq<UserRow>)
    ensures forall u :: u in r <==> u in users && Some(u.username) == name
  {
    Where(users, (u: UserRow) => Some(u.username) == name)
  }

  ghost predicate HasUser(users: seq<UserRow>, name: string) {
    exists u :: u in users && u.username == name
  }

  ghost predicate HasVideo(videos: seq<VideoRow>, id: int) {
    exists v :: v in videos && v.id == id
  }

  /** The invariant of the store, over the contents of its tables: every
      table in creation order with its stamps before the clock, every
      serial table also in id order with its ids below the next serial,
      usernames unique, and at most one like and one subscription per
      pair. */
  ghost predicate Tables(users: seq<UserRow>, videos: seq<VideoRow>, comments: seq<CommentRow>, likes: seq<LikeRow>,
                         subscriptions: seq<SubscriptionRow>, views: seq<ViewRow>, nextVideoId: nat, nextCommentId: nat,
                         nextLikeId: nat, nextSubscriptionId: nat, nextViewId: nat, clock: nat)
  {
    // Named, so that the verifier proves the invariant as one goal rather
    // than conjunct by conjunct.
    var ok :=
      && Increasing(users, UserStamp) && LastBelow(users, UserStamp, clock) && Unique(users, UserName)
      && Serial(videos, VideoStamp, VideoKey, clock, nextVideoId)
      && Serial(comments, CommentStamp, CommentKey, clock, nextCommentId)
      && Serial(likes, LikeStamp, LikeKey, clock, nextLikeId) && Unique(likes, LikePair)
      && Serial(subscriptions, SubscriptionStamp, SubscriptionKey, clock, nextSubscriptionId)
      && Unique(subscriptions, SubscriptionPair)
      && Serial(views, ViewStamp, ViewKey, clock, nextViewId);
    ok
  }

  class Db {
    var users: seq<UserRow>
    var videos: seq<VideoRow>
    var comments: seq<CommentRow>
    var likes: seq<LikeRow>
    var subscriptions: seq<SubscriptionRow>
    var views: seq<ViewRow>
    var nextVideoId: nat
    var nextCommentId: nat
    var nextLikeId: nat
    var nextSubscriptionId: nat
    var nextViewId: nat
    /** The next `created_at` stamp; every insert advances it. */
    var clock: nat

    ghost predicate Valid()
      reads this
    {
      Tables(users, videos, comments, likes, subscriptions, views,
             nextVideoId, nextCommentId, nextLikeId, nextSubscriptionId, nextViewId, clock)
    }

    /** An empty database; serial ids start at 1. */
    constructor ()
      ensures Valid()
      ensures users == [] && videos == [] && comments == [] && likes == [] && subscriptions == [] && views == []
      ensures nextVideoId == 1 && nextCommentId == 1 && nextLikeId == 1 && nextSubscriptionId == 1 && nextViewId == 1
      ensures clock == 0
    {
      users, videos, comments, likes, subscriptions, views := [], [], [], [], [], [];
      nextVideoId, nextCommentId, nextLikeId, nextSubscriptionId, nextViewId := 1, 1, 1, 1, 1;
      clock := 0;
    }
  }

  /** Appending a fresh row (stamped with the clock, numbered with the next
      serial) keeps a serial table valid under the advanced counters. */
  lemma SerialSnoc<T>(s: seq<T>, x: T, stamp: T -> int, id: T -> int, clock: nat, next: nat)
    requires Serial(s, stamp, id, clock, next)
    requires stamp(x) == clock && id(x) == next
    ensures Serial(s + [x], stamp, id, clock + 1, next + 1)
  {
    BelowLast(s, stamp, clock);
    BelowLast(s, id, next);
    IncreasingSnoc(s, x, stamp);
    IncreasingSnoc(s, x, id);
  }

  /** Appending a comment stamped with the clock and numbered with the next
      comment serial keeps the store valid under the advanced counters. */
  lemma AddComment(users: seq<UserRow>, videos: seq<VideoRow>, comments: seq<CommentRow>, likes: seq<LikeRow>,
                   subscriptions: seq<SubscriptionRow>, views: seq<ViewRow>, nextVideoId: nat, nextCommentId: nat,
                   nextLikeId: nat, nextSubscriptionId: nat, nextViewId: nat, clock: nat, row: CommentRow)
    requires Tables(users, videos, comments, likes, subscriptions, views,
                    nextVideoId, nextCommentId, nextLikeId, nextSubscriptionId, nextViewId, clock)
    requires row.createdAt == clock && row.id == nextCommentId
    ensures Tables(users, videos, comments + [row], likes, subscriptions, views,
                   nextVideoId, nextCommentId + 1, nextLikeId, nextSubscriptionId, nextViewId, clock + 1)
  {
    SerialSnoc(comments, row, CommentStamp, CommentKey, clock, nextCommentId);
  }

  /** Appending a video stamped with the clock and numbered with the next
      video serial keeps the store valid under the advanced counters. */
  lemma AddVideo(users: seq<UserRow>, videos: seq<VideoRow>, comments: seq<CommentRow>, likes: seq<LikeRow>,
                   subscriptions: seq<SubscriptionRow>, views: seq<ViewRow>, nextVideoId: nat, nextCommentId: nat,
                   nextLikeId: nat, nextSubscriptionId: nat, nextViewId: nat, clock: nat, row: VideoRow)
    requires Tables(users, videos, comments, likes, subscriptions, views,
                    nextVideoId, nextCommentId, nextLikeId, nextSubscriptionId, nextViewId, clock)
    requires row.createdAt == clock && row.id == nextVideoId
    ensures Tables(users, videos + [row], comments, likes, subscriptions, views,
                   nextVideoId + 1, nextCommentId, nextLikeId, nextSubscriptionId, nextViewId, clock + 1)
  {
    SerialSnoc(videos, row, VideoStamp, VideoKey, clock, nextVideoId);
  }

  /** Appending a like for a new pair, stamped with the clock and numbered
      with the next like serial, keeps the store valid. */
  lemma AddLike(users: seq<UserRow>, videos: seq<VideoRow>, comments: seq<CommentRow>, likes: seq<LikeRow>,
                   subscriptions: seq<SubscriptionRow>, views: seq<ViewRow>, nextVideoId: nat, nextCommentId: nat,
                   nextLikeId: nat, nextSubscriptionId: nat, nextViewId: nat, clock: nat, row: LikeRow)
    requires Tables(users, videos, comments, likes, subscriptions, views,
                    nextVideoId, nextCommentId, nextLikeId, nextSubscriptionId, nextViewId, clock)
    requires row.createdAt == clock && row.id == nextLikeId
    requires forall i :: 0 <= i < |likes| ==> LikePair(likes[i]) != LikePair(row)
    ensures Tables(users, videos, comments, likes + [row], subscriptions, views,
                   nextVideoId, nextCommentId, nextLikeId + 1, nextSubscriptionId, nextViewId, clock + 1)
  {
    SerialSnoc(likes, row, LikeStamp, LikeKey, clock, nextLikeId);
    UniqueSnoc(likes, row, LikePair);
  }

  /** Appending a subscription for a new pair, stamped with the clock and
      numbered with the next subscription serial, keeps the store valid. */
  lemma AddSubscription(users: seq<UserRow>, videos: seq<VideoRow>, comments: seq<CommentRow>, likes: seq<LikeRow>,
                   subscriptions: seq<SubscriptionRow>, views: seq<ViewRow>, nextVideoId: nat, nextCommentId: nat,
                   nextLikeId: nat, nextSubscriptionId: nat, nextViewId: nat, clock: nat, row: SubscriptionRow)
    requires Tables(users, videos, comments, likes, subscriptions, views,
                    nextVideoId, nextCommentId, nextLikeId, nextSubscriptionId, nextViewId, clock)
    requires row.createdAt == clock && row.id == nextSubscriptionId
    requires forall i :: 0 <= i < |subscriptions| ==> SubscriptionPair(subscriptions[i]) != SubscriptionPair(row)
    ensures Tables(users, videos, comments, likes, subscriptions + [row], views,
                   nextVideoId, nextCommentId, nextLikeId, nextSubscriptionId + 1, nextViewId, clock + 1)
  {
    SerialSnoc(subscriptions, row, SubscriptionStamp, SubscriptionKey, clock, nextSubscriptionId);
    UniqueSnoc(subscriptions, row, SubscriptionPair);
  }

  /** Appending a view stamped with the clock and numbered with the next
      view serial keeps the store valid under the advanced counters. */
  lemma AddView(users: seq<UserRow>, videos: seq<VideoRow>, comments: seq<CommentRow>, likes: seq<LikeRow>,
                   subscriptions: seq<SubscriptionRow>, views: seq<ViewRow>, nextVideoId: nat, nextCommentId: nat,
                   nextLikeId: nat, nextSubscriptionId: nat, nextViewId: nat, clock: nat, row: ViewRow)
    requires Tables(users, videos, comments, likes, subscriptions, views,
                    nextVideoId, nextCommentId, nextLikeId, nextSubscriptionId, nextViewId, clock)
    requires row.createdAt == clock && row.id == nextViewId
    ensures Tables(users, videos, comments, likes, subscriptions, views + [row],
                   nextVideoId, nextCommentId, nextLikeId, nextSubscriptionId, nextViewId + 1, clock + 1)
  {
    SerialSnoc(views, row, ViewStamp, ViewKey, clock, nextViewId);
  }

  /** Appending a user with a new name, stamped with the clock, keeps the
      store valid under the advanced clock. */
  lemma AddUser(users: seq<UserRow>, videos: seq<VideoRow>, comments: seq<CommentRow>, likes: seq<LikeRow>,
                   subscriptions: seq<SubscriptionRow>, views: seq<ViewRow>, nextVideoId: nat, nextCommentId: nat,
                   nextLikeId: nat, nextSubscriptionId: nat, nextViewId: nat, clock: nat, row: UserRow)
    requires Tables(users, videos, comments, likes, subscriptions, views,
                    nextVideoId, nextCommentId, nextLikeId, nextSubscriptionId, nextViewId, clock)
    requires row.createdAt == clock && !HasUser(users, row.username)
    ensures Tables(users + [row], videos, comments, likes, subscriptions, views,
                   nextVideoId, nextCommentId, nextLikeId, nextSubscriptionId, nextViewId, clock + 1)
  {
    BelowLast(users, UserStamp, clock);
    IncreasingSnoc(users, row, UserStamp);
    assert forall i :: 0 <= i < |users| ==> users[i] in users;
    UniqueSnoc(users, row, UserName);
  }

  /** Rewriting video rows in place, keeping each row's stamp and id, keeps
      the store valid. */
  lemma ReplaceVideos(users: seq<UserRow>, videos: seq<VideoRow>, comments: seq<CommentRow>, likes: seq<LikeRow>,
                   subscriptions: seq<SubscriptionRow>, views: seq<ViewRow>, nextVideoId: nat, nextCommentId: nat,
                   nextLikeId: nat, nextSubscriptionId: nat, nextViewId: nat, clock: nat, after: seq<VideoRow>)
    requires Tables(users, videos, comments, likes, subscriptions, views,
                    nextVideoId, nextCommentId, nextLikeId, nextSubscriptionId, nextViewId, clock)
    requires |after| == |videos|
    requires forall i :: 0 <= i < |videos| ==> VideoStamp(after[i]) == VideoStamp(videos[i]) && VideoKey(after[i]) == VideoKey(videos[i])
    ensures Tables(users, after, comments, likes, subscriptions, views,
                   nextVideoId, nextCommentId, nextLikeId, nextSubscriptionId, nextViewId, clock)
  {
    SameKeys(videos, after, VideoStamp, clock);
    SameKeys(videos, after, VideoKey, nextVideoId);
  }

  /** Rewriting comment rows in place, keeping each row's stamp and id,
      keeps the store valid. */
  lemma ReplaceComments(users: seq<UserRow>, videos: seq<VideoRow>, comments: seq<CommentRow>, likes: seq<LikeRow>,
                   subscriptions: seq<SubscriptionRow>, views: seq<ViewRow>, nextVideoId: nat, nextCommentId: nat,
                   nextLikeId: nat, nextSubscriptionId: nat, nextViewId: nat, clock: nat, after: seq<CommentRow>)
    requires Tables(users, videos, comments, likes, subscriptions, views,
                    nextVideoId, nextCommentId, nextLikeId, nextSubscriptionId, nextViewId, clock)
    requires |after| == |comments|
    requires forall i :: 0 <= i < |comments| ==>
      CommentStamp(after[i]) == CommentStamp(comments[i]) && CommentKey(after[i]) == CommentKey(comments[i])
    ensures Tables(users, videos, after, likes, subscriptions, views,
                   nextVideoId, nextCommentId, nextLikeId, nextSubscriptionId, nextViewId, clock)
  {
    SameKeys(comments, after, CommentStamp, clock);
    SameKeys(comments, after, CommentKey, nextCommentId);
  }

  /** Rewriting user rows in place, keeping each row's stamp and name,
      keeps the store valid. */
  lemma ReplaceUsers(users: seq<UserRow>, videos: seq<VideoRow>, comments: seq<CommentRow>, likes: seq<LikeRow>,
                   subscriptions: seq<SubscriptionRow>, views: seq<ViewRow>, nextVideoId: nat, nextCommentId: nat,
                   nextLikeId: nat, nextSubscriptionId: nat, nextViewId: nat, clock: nat, after: seq<UserRow>)
    requires Tables(users, videos, comments, likes, subscriptions, views,
                    nextVideoId, nextCommentId, nextLikeId, nextSubscriptionId, nextViewId, clock)
    requires |after| == |users|
    requires forall i :: 0 <= i < |users| ==> UserStamp(after[i]) == UserStamp(users[i]) && UserName(after[i]) == UserName(users[i])
    ensures Tables(after, videos, comments, likes, subscriptions, views,
                   nextVideoId, nextCommentId, nextLikeId, nextSubscriptionId, nextViewId, clock)
  {
    SameKeys(users, after, UserStamp, clock);
    SameUnique(users, after, UserName);
  }

  /** Deleting rows keeps a serial table valid. */
  lemma SerialWhere<T(!new)>(s: seq<T>, p: T -> bool, stamp: T -> int, id: T -> int, clock: nat, next: nat)
    requires Serial(s, stamp, id, clock, next)
    ensures Serial(Where(s, p), stamp, id, clock, next)
  {
    BelowLast(s, stamp, clock);
    BelowLast(s, id, next);
    WhereIncreasing(s, p, stamp);
    WhereIncreasing(s, p, id);
    WhereBelow(s, p, stamp, clock);
    WhereBelow(s, p, id, next);
    BelowLast(Where(s, p), stamp, clock);
    BelowLast(Where(s, p), id, next);
  }

  /** In a table increasing by `id`, rows with the same id are one row. */
  lemma SameId<T>(s: seq<T>, id: T -> int, i: int, j: int)
    requires Increasing(s, id) && 0 <= i < |s| && 0 <= j < |s| && id(s[i]) == id(s[j])
    ensures i == j
  {
  }
}
