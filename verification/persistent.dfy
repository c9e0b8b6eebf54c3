/**
 * The persistent backend: a database context holding the three tables, and one repository per
 * entity over it. Every write goes through the store's rules (`Schema`): it is committed whole or
 * rejected whole. A rejected save or delete reaches the caller as an InvalidOperationException;
 * a rejected update escapes as the DbUpdateException itself, which the update does not catch.
 */
module Persistent {
  import opened Common
  import opened Models
  import opened Queries
  import opened Schema

  /** The database behind the context: the three tables as they are committed. */
  class YouTubeDbContext {
    var accounts: map<Id, AccountRow>
    var videos: map<Id, VideoRow>
    var comments: map<Id, CommentRow>

    function State(): Store
      reads this
    {
      Store(accounts, videos, comments)
    }

    ghost predicate Valid()
      reads this
    {
      Schema.Valid(State())
    }

    /**
     * A fresh database holds the seed data, which keeps every rule. The constructor stands for the
     * database as a migration or `EnsureCreated` leaves it; the program itself opens one context
     * per request over that existing database.
     */
    constructor ()
      ensures State() == Seed
      ensures Valid()
    {
      accounts := Seed.accounts;
      videos := Seed.videos;
      comments := Seed.comments;
      SeedValid();
    }

    /** SaveChanges that succeeds: the tables become `next` in one step. */
    method Commit(next: Store)
      modifies this
      ensures State() == next
    {
      accounts := next.accounts;
      videos := next.videos;
      comments := next.comments;
    }
  }

  /** The video row an update leaves: title, description, duration, views and date copied over. */
  function VideoEdits(existing: VideoRow, video: VideoRow): (r: VideoRow)
    ensures r.id == existing.id && r.accountId == existing.accountId
    ensures r.title == video.title && r.description == video.description
    ensures r.durationInSeconds == video.durationInSeconds && r.views == video.views
    ensures r.publishedAt == video.publishedAt
  {
    existing.(title := video.title, description := video.description,
              durationInSeconds := video.durationInSeconds, views := video.views,
              publishedAt := video.publishedAt)
  }

  /** The comment row an update leaves: text, likes, dislikes and the edited flag copied over. */
  function CommentEdits(existing: CommentRow, comment: CommentRow): (r: CommentRow)
    ensures r.id == existing.id && r.createdAt == existing.createdAt
    ensures r.videoId == existing.videoId && r.authorId == existing.authorId
    ensures r.text == comment.text && r.likes == comment.likes
    ensures r.dislikes == comment.dislikes && r.isEdited == comment.isEdited
  {
    existing.(text := comment.text, likes := comment.likes, dislikes := comment.dislikes,
              isEdited := comment.isEdited)
  }

  /** Ranking by the `ByViewsThenPublishedAt` key: more views first, then later publication. */
  lemma ViewsThenDateOrder(r: seq<VideoRow>, all: set<VideoRow>)
    requires SortedBy(r, ByViewsThenPublishedAt)
    requires forall v, w :: v in r && w in all && w !in r ==>
      Precedes(ByViewsThenPublishedAt(v), ByViewsThenPublishedAt(w))
    ensures forall i, j :: 0 <= i < j < |r| ==> MoreViewed(r[i], r[j])
    ensures forall v, w :: v in r && w in all && w !in r ==> MoreViewed(v, w)
  {
    forall i, j | 0 <= i < j < |r|
      ensures MoreViewed(r[i], r[j])
    {
      assert Precedes(ByViewsThenPublishedAt(r[i]), ByViewsThenPublishedAt(r[j]));
    }
    forall v, w | v in r && w in all && w !in r
      ensures MoreViewed(v, w)
    {
      assert Precedes(ByViewsThenPublishedAt(v), ByViewsThenPublishedAt(w));
    }
  }

  class PersistentAccountRepository {
    const context: YouTubeDbContext

    constructor (context: YouTubeDbContext)
      ensures this.context == context
    {
      this.context := context;
    }

    /**
     * Gives an account without an id a new one and inserts it. A taken id, username or email, or
     * an overlong column, rejects the insert: nothing changes and InvalidOperation is thrown.
     */
    method Save(account: AccountRow) returns (saved: AccountRow, r: Outcome)
      requires context.Valid()
      modifies context
      ensures context.Valid()
      ensures account.id != Empty ==> saved == account
      ensures account.id == Empty ==> saved == account.(id := saved.id) && saved.id !in old(context.accounts)
      ensures saved.id != Empty
      ensures r.Fail? <==> InsertAccount(old(context.State()), saved).None?
      ensures r.Fail? ==> r.error == InvalidOperation && context.State() == old(context.State())
      ensures r.Done? ==> context.State() == InsertAccount(old(context.State()), saved).value
      ensures r.Done? ==> GetById(saved.id) == Some(saved)
    {
      saved := account;
      if account.id == Empty {
        FreshIdExists(context.accounts.Keys);
        var id :| id != Empty && id !in context.accounts.Keys;
        saved := account.(id := id);
      }
      var next := InsertAccount(context.State(), saved);
      InsertAccountKeepsValid(context.State(), saved);
      if next.None? {
        r := Fail(InvalidOperation);
      } else {
        context.Commit(next.value);
        r := Done;
      }
    }

    /** Every stored account once, in the order the table is scanned. */
    ghost function GetAll(): (r: seq<AccountRow>)
      reads context
      ensures |r| == |context.accounts|
      ensures forall a :: a in r <==> a in context.accounts.Values
      ensures context.Valid() ==> NoDuplicates(r)
    {
      KeyedRowsDistinct(context.State());
      Scan(context.accounts)
    }

    /** The account with id `id`, or null. */
    function GetById(id: Id): (r: Option<AccountRow>)
      reads context
      ensures r.None? <==> id !in context.accounts
      ensures r.Some? ==> r.value in context.accounts.Values
      ensures context.Valid() && r.Some? ==> r.value.id == id
    {
      if id in context.accounts then Some(context.accounts[id]) else None
    }

    /** The first scanned account whose username, lower-cased, equals `username` lower-cased. */
    ghost function GetByUsername(username: string): (r: Option<AccountRow>)
      reads context
      ensures r.None? <==>
        forall a :: a in context.accounts.Values ==> ToLower(a.username) != ToLower(username)
      ensures r.Some? ==>
        r.value in context.accounts.Values && ToLower(r.value.username) == ToLower(username)
      ensures r.Some? ==>
        exists i :: 0 <= i < |GetAll()| && GetAll()[i] == r.value &&
          forall j :: 0 <= j < i ==> ToLower(GetAll()[j].username) != ToLower(username)
    {
      var all, matches := GetAll(), (a: AccountRow) => ToLower(a.username) == ToLower(username);
      var r := FirstOrDefault(all, matches);
      if r.Some? then
        var i :| 0 <= i < |all| && all[i] == r.value && forall j :: 0 <= j < i ==> !matches(all[j]);
        assert forall j :: 0 <= j < i ==> ToLower(all[j].username) != ToLower(username);
        r
      else r
    }

    /**
     * Overwrites every column of the stored account with `account`'s. An id that is not stored
     * throws KeyNotFound; a taken username or email, or an overlong column, throws DbUpdate.
     * Either way nothing changes.
     */
    method Update(account: AccountRow) returns (r: Outcome)
      requires context.Valid()
      modifies context
      ensures context.Valid()
      ensures account.id !in old(context.accounts) ==>
        r == Fail(KeyNotFound) && context.State() == old(context.State())
      ensures account.id in old(context.accounts) ==>
        var next := UpdateAccount(old(context.State()), account);
        && (next.None? ==> r == Fail(DbUpdate) && context.State() == old(context.State()))
        && (next.Some? ==> r == Done && context.State() == next.value)
      ensures r.Done? ==> GetById(account.id) == Some(account)
    {
      if account.id !in context.accounts {
        return Fail(KeyNotFound);
      }
      var next := UpdateAccount(context.State(), account);
      UpdateAccountKeepsValid(context.State(), account);
      if next.None? {
        r := Fail(DbUpdate);
      } else {
        context.Commit(next.value);
        r := Done;
      }
    }

    /**
     * Deletes the account with id `id`, if stored, together with its videos and their comments.
     * An account that authored a comment cannot be deleted: nothing changes and InvalidOperation
     * is thrown.
     */
    method Delete(id: Id) returns (r: Outcome)
      requires context.Valid()
      modifies context
      ensures context.Valid()
      ensures r.Fail? <==> id in old(context.accounts) && HasAuthoredComments(old(context.State()), id)
      ensures r.Fail? ==> r.error == InvalidOperation
      ensures r.Fail? || id !in old(context.accounts) ==> context.State() == old(context.State())
      ensures r.Done? && id in old(context.accounts) ==>
        context.State() == DeleteAccount(old(context.State()), id).value
      ensures GetById(id) == None || r.Fail?
    {
      if id !in context.accounts {
        return Done;
      }
      var next := DeleteAccount(context.State(), id);
      DeleteAccountCascades(context.State(), id);
      if next.None? {
        r := Fail(InvalidOperation);
      } else {
        context.Commit(next.value);
        r := Done;
      }
    }
  }

  class PersistentVideoRepository {
    const context: YouTubeDbContext

    constructor (context: YouTubeDbContext)
      ensures this.context == context
    {
      this.context := context;
    }

    /**
     * Gives a video without an id a new one and inserts it. A taken id, an account that is not
     * stored, or an overlong column rejects the insert: nothing changes and InvalidOperation is
     * thrown.
     */
    method Save(video: VideoRow) returns (saved: VideoRow, r: Outcome)
      requires context.Valid()
      modifies context
      ensures context.Valid()
      ensures video.id != Empty ==> saved == video
      ensures video.id == Empty ==> saved == video.(id := saved.id) && saved.id !in old(context.videos)
      ensures saved.id != Empty
      ensures r.Fail? <==> InsertVideo(old(context.State()), saved).None?
      ensures r.Fail? ==> r.error == InvalidOperation && context.State() == old(context.State())
      ensures r.Done? ==> context.State() == InsertVideo(old(context.State()), saved).value
      ensures r.Done? ==> GetById(saved.id) == Some(saved)
    {
      saved := video;
      if video.id == Empty {
        FreshIdExists(context.videos.Keys);
        var id :| id != Empty && id !in context.videos.Keys;
        saved := video.(id := id);
      }
      var next := InsertVideo(context.State(), saved);
      InsertVideoKeepsValid(context.State(), saved);
      if next.None? {
        r := Fail(InvalidOperation);
      } else {
        context.Commit(next.value);
        r := Done;
      }
    }

    /** Every stored video once, latest published first. */
    ghost function GetAll(): (r: seq<VideoRow>)
      reads context
      ensures |r| == |context.videos|
      ensures forall v :: v in r <==> v in context.videos.Values
      ensures forall i, j :: 0 <= i < j < |r| ==> r[i].publishedAt >= r[j].publishedAt
      ensures context.Valid() ==> NoDuplicates(r)
    {
      var r := Sorted(context.videos, ByPublishedAt);
      KeyedRowsDistinct(context.State());
      r
    }

    /** The video with id `id`, or null. */
    function GetById(id: Id): (r: Option<VideoRow>)
      reads context
      ensures r.None? <==> id !in context.videos
      ensures r.Some? ==> r.value in context.videos.Values
      ensures context.Valid() && r.Some? ==> r.value.id == id
    {
      if id in context.videos then Some(context.videos[id]) else None
    }

    /** The videos of one account, latest published first. */
    ghost function GetByAccountId(accountId: Id): (r: seq<VideoRow>)
      reads context
      ensures forall v :: v in r <==> v in context.videos.Values && v.accountId == accountId
      ensures forall i, j :: 0 <= i < j < |r| ==> r[i].publishedAt >= r[j].publishedAt
      ensures context.Valid() ==> NoDuplicates(r)
    {
      var r := Select(context.videos, (v: VideoRow) => v.accountId == accountId, ByPublishedAt);
      KeyedRowsDistinct(context.State());
      r
    }

    /**
     * The `limit` most viewed videos, most viewed first and, among equal views, latest published
     * first. The query runs on SQLite, where `Take(limit)` is `LIMIT limit`: a limit of zero gives
     * nothing, and a negative limit sets no limit, so every video comes back, ranked.
     */
    ghost function GetMostViewed(limit: int := 10): (r: seq<VideoRow>)
      reads context
      ensures |r| == if limit < 0 || |context.videos| <= limit then |context.videos| else limit
      ensures forall v :: v in r ==> v in context.videos.Values
      ensures limit < 0 ==> forall v :: v in context.videos.Values ==> v in r
      ensures forall i, j :: 0 <= i < j < |r| ==> MoreViewed(r[i], r[j])
      ensures forall v, w :: v in r && w in context.videos.Values && w !in r ==> MoreViewed(v, w)
      ensures context.Valid() ==> NoDuplicates(r)
    {
      var r := SqlTop(context.videos, ByViewsThenPublishedAt, limit);
      ViewsThenDateOrder(r, context.videos.Values);
      KeyedRowsDistinct(context.State());
      r
    }

    /**
     * Copies title, description, duration, views and publication date onto the stored video; its
     * account stays. An id that is not stored throws KeyNotFound; an overlong column throws
     * DbUpdate. Either way nothing changes.
     */
    method Update(video: VideoRow) returns (r: Outcome)
      requires context.Valid()
      modifies context
      ensures context.Valid()
      ensures video.id !in old(context.videos) ==>
        r == Fail(KeyNotFound) && context.State() == old(context.State())
      ensures video.id in old(context.videos) ==>
        var next := UpdateVideo(old(context.State()), VideoEdits(old(context.videos[video.id]), video));
        && (next.None? ==> r == Fail(DbUpdate) && context.State() == old(context.State()))
        && (next.Some? ==> r == Done && context.State() == next.value)
    {
      if video.id !in context.videos {
        return Fail(KeyNotFound);
      }
      var edited := VideoEdits(context.videos[video.id], video);
      var next := UpdateVideo(context.State(), edited);
      UpdateVideoKeepsValid(context.State(), edited);
      if next.None? {
        r := Fail(DbUpdate);
      } else {
        context.Commit(next.value);
        r := Done;
      }
    }

    /** Deletes the video with id `id`, if stored, together with its comments. */
    method Delete(id: Id) returns (r: Outcome)
      requires context.Valid()
      modifies context
      ensures context.Valid()
      ensures r == Done
      ensures id !in old(context.videos) ==> context.State() == old(context.State())
      ensures id in old(context.videos) ==> context.State() == DeleteVideo(old(context.State()), id)
      ensures GetById(id) == None
    {
      if id !in context.videos {
        return Done;
      }
      DeleteVideoCascades(context.State(), id);
      context.Commit(DeleteVideo(context.State(), id));
      r := Done;
    }
  }

  class PersistentCommentRepository {
    const context: YouTubeDbContext

    constructor (context: YouTubeDbContext)
      ensures this.context == context
    {
      this.context := context;
    }

    /**
     * Gives a comment without an id a new one and inserts it. A taken id, a video or author that
     * is not stored, or an overlong text rejects the insert: nothing changes and InvalidOperation
     * is thrown.
     */
    method Save(comment: CommentRow) returns (saved: CommentRow, r: Outcome)
      requires context.Valid()
      modifies context
      ensures context.Valid()
      ensures comment.id != Empty ==> saved == comment
      ensures comment.id == Empty ==> saved == comment.(id := saved.id) && saved.id !in old(context.comments)
      ensures saved.id != Empty
      ensures r.Fail? <==> InsertComment(old(context.State()), saved).None?
      ensures r.Fail? ==> r.error == InvalidOperation && context.State() == old(context.State())
      ensures r.Done? ==> context.State() == InsertComment(old(context.State()), saved).value
      ensures r.Done? ==> GetById(saved.id) == Some(saved)
    {
      saved := comment;
      if comment.id == Empty {
        FreshIdExists(context.comments.Keys);
        var id :| id != Empty && id !in context.comments.Keys;
        saved := comment.(id := id);
      }
      var next := InsertComment(context.State(), saved);
      InsertCommentKeepsValid(context.State(), saved);
      if next.None? {
        r := Fail(InvalidOperation);
      } else {
        context.Commit(next.value);
        r := Done;
      }
    }

    /** Every stored comment once, newest first. */
    ghost function GetAll(): (r: seq<CommentRow>)
      reads context
      ensures |r| == |context.comments|
      ensures forall c :: c in r <==> c in context.comments.Values
      ensures forall i, j :: 0 <= i < j < |r| ==> r[i].createdAt >= r[j].createdAt
      ensures context.Valid() ==> NoDuplicates(r)
    {
      var r := Sorted(context.comments, ByCreatedAt);
      KeyedRowsDistinct(context.State());
      r
    }

    /** The comment with id `id`, or null. */
    function GetById(id: Id): (r: Option<CommentRow>)
      reads context
      ensures r.None? <==> id !in context.comments
      ensures r.Some? ==> r.value in context.comments.Values
      ensures context.Valid() && r.Some? ==> r.value.id == id
    {
      if id in context.comments then Some(context.comments[id]) else None
    }

    /** The comments on one video, newest first. */
    ghost function GetByVideoId(videoId: Id): (r: seq<CommentRow>)
      reads context
      ensures forall c :: c in r <==> c in context.comments.Values && c.videoId == videoId
      ensures forall i, j :: 0 <= i < j < |r| ==> r[i].createdAt >= r[j].createdAt
      ensures context.Valid() ==> NoDuplicates(r)
    {
      var r := Select(context.comments, (c: CommentRow) => c.videoId == videoId, ByCreatedAt);
      KeyedRowsDistinct(context.State());
      r
    }

    /** The comments by one author, newest first. */
    ghost function GetByAuthorId(authorId: Id): (r: seq<CommentRow>)
      reads context
      ensures forall c :: c in r <==> c in context.comments.Values && c.authorId == authorId
      ensures forall i, j :: 0 <= i < j < |r| ==> r[i].createdAt >= r[j].createdAt
      ensures context.Valid() ==> NoDuplicates(r)
    {
      var r := Select(context.comments, (c: CommentRow) => c.authorId == authorId, ByCreatedAt);
      KeyedRowsDistinct(context.State());
      r
    }

    /**
     * Copies text, likes, dislikes and the edited flag onto the stored comment; its creation time,
     * video and author stay. An id that is not stored throws KeyNotFound; an overlong text throws
     * DbUpdate. Either way nothing changes.
     */
    method Update(comment: CommentRow) returns (r: Outcome)
      requires context.Valid()
      modifies context
      ensures context.Valid()
      ensures comment.id !in old(context.comments) ==>
        r == Fail(KeyNotFound) && context.State() == old(context.State())
      ensures comment.id in old(context.comments) ==>
        var next := UpdateComment(old(context.State()), CommentEdits(old(context.comments[comment.id]), comment));
        && (next.None? ==> r == Fail(DbUpdate) && context.State() == old(context.State()))
        && (next.Some? ==> r == Done && context.State() == next.value)
    {
      if comment.id !in context.comments {
        return Fail(KeyNotFound);
      }
      var edited := CommentEdits(context.comments[comment.id], comment);
      var next := UpdateComment(context.State(), edited);
      UpdateCommentKeepsValid(context.State(), edited);
      if next.None? {
        r := Fail(DbUpdate);
      } else {
        context.Commit(next.value);
        r := Done;
      }
    }

    /** Deletes the comment with id `id`, if stored; nothing else changes. */
    method Delete(id: Id) returns (r: Outcome)
      requires context.Valid()
      modifies context
      ensures context.Valid()
      ensures r == Done
      ensures context.State() == DeleteComment(old(context.State()), id)
      ensures GetById(id) == None
    {
      if id !in context.comments {
        assert context.comments - {id} == context.comments;
        return Done;
      }
      DeleteCommentKeepsValid(context.State(), id);
      context.Commit(DeleteComment(context.State(), id));
      r := Done;
    }
  }
}
