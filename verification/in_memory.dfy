/**
 * The in-memory backend: one dictionary per entity, keyed by id. It checks nothing beyond the key:
 * no uniqueness, no foreign keys, no lengths, and deleting removes one entry and nothing else.
 * Each dictionary is a `map` field that the methods reassign; its values are row snapshots.
 */
module InMemory {
  import opened Common
  import opened Models
  import opened Queries

  /** Ranking by the `ByViews` key is ranking by view count. */
  lemma ViewsOrder(r: seq<VideoRow>, all: set<VideoRow>)
    requires SortedBy(r, ByViews)
    requires forall v, w :: v in r && w in all && w !in r ==> Precedes(ByViews(v), ByViews(w))
    ensures forall i, j :: 0 <= i < j < |r| ==> r[i].views >= r[j].views
    ensures forall v, w :: v in r && w in all && w !in r ==> v.views >= w.views
  {
  }

  class InMemoryAccountRepository {
    var memory: map<Id, AccountRow>

    /** Every entry sits under its own, non-empty id. */
    ghost predicate Valid()
      reads this
    {
      forall k :: k in memory ==> k != Empty && memory[k].id == k
    }

    constructor ()
      ensures Valid() && memory == map[]
    {
      memory := map[];
    }

    /**
     * Gives an account without an id a new one, then stores it under its id, replacing whatever
     * was stored there.
     */
    method Save(account: AccountRow) returns (saved: AccountRow)
      requires Valid()
      modifies this
      ensures Valid()
      ensures account.id != Empty ==> saved == account
      ensures account.id == Empty ==> saved == account.(id := saved.id) && saved.id !in old(memory)
      ensures saved.id != Empty
      ensures memory == old(memory)[saved.id := saved]
      ensures GetById(saved.id) == Some(saved)
    {
      saved := account;
      if account.id == Empty {
        FreshIdExists(memory.Keys);
        var id :| id != Empty && id !in memory.Keys;
        saved := account.(id := id);
      }
      memory := memory[saved.id := saved];
    }

    /** Every stored account once, in the dictionary's own order. */
    ghost function GetAll(): (r: seq<AccountRow>)
      reads this
      ensures |r| == |memory|
      ensures forall a :: a in r <==> a in memory.Values
      ensures Valid() ==> NoDuplicates(r)
    {
      KeyedInjective(memory, (a: AccountRow) => a.id);
      Scan(memory)
    }

    /** The account stored under `id`, or null. */
    function GetById(id: Id): (r: Option<AccountRow>)
      reads this
      ensures r.None? <==> id !in memory
      ensures r.Some? ==> r.value in memory.Values
      ensures Valid() && r.Some? ==> r.value.id == id
    {
      if id in memory then Some(memory[id]) else None
    }

    /** The first account, in dictionary order, whose username equals `username` ignoring case. */
    ghost function GetByUsername(username: string): (r: Option<AccountRow>)
      reads this
      ensures r.None? <==> forall a :: a in memory.Values ==> !EqualsIgnoreCase(a.username, username)
      ensures r.Some? ==> r.value in memory.Values && EqualsIgnoreCase(r.value.username, username)
      ensures r.Some? ==>
        exists i :: 0 <= i < |GetAll()| && GetAll()[i] == r.value &&
          forall j :: 0 <= j < i ==> !EqualsIgnoreCase(GetAll()[j].username, username)
    {
      var all, matches := GetAll(), (a: AccountRow) => EqualsIgnoreCase(a.username, username);
      var r := FirstOrDefault(all, matches);
      if r.Some? then
        var i :| 0 <= i < |all| && all[i] == r.value && forall j :: 0 <= j < i ==> !matches(all[j]);
        assert forall j :: 0 <= j < i ==> !EqualsIgnoreCase(all[j].username, username);
        r
      else r
    }

    /** Replaces the stored account with the same id; an id that is not stored throws. */
    method Update(account: AccountRow) returns (r: Outcome)
      requires Valid()
      modifies this
      ensures Valid()
      ensures r.Fail? <==> account.id !in old(memory)
      ensures r.Fail? ==> r.error == KeyNotFound && memory == old(memory)
      ensures r.Done? ==> memory == old(memory)[account.id := account]
      ensures r.Done? ==> GetById(account.id) == Some(account)
    {
      if account.id in memory {
        memory := memory[account.id := account];
        r := Done;
      } else {
        r := Fail(KeyNotFound);
      }
    }

    /** Removes the entry for `id`, if any; nothing else changes. */
    method Delete(id: Id)
      requires Valid()
      modifies this
      ensures Valid()
      ensures memory == old(memory) - {id}
      ensures GetById(id) == None
      ensures forall k :: k != id ==> GetById(k) == old(GetById(k))
    {
      memory := memory - {id};
    }
  }

  class InMemoryVideoRepository {
    var memory: map<Id, VideoRow>

    /** Every entry sits under its own, non-empty id. */
    ghost predicate Valid()
      reads this
    {
      forall k :: k in memory ==> k != Empty && memory[k].id == k
    }

    constructor ()
      ensures Valid() && memory == map[]
    {
      memory := map[];
    }

    /**
     * Gives a video without an id a new one, then stores it under its id, replacing whatever was
     * stored there. The owning account is not checked.
     */
    method Save(video: VideoRow) returns (saved: VideoRow)
      requires Valid()
      modifies this
      ensures Valid()
      ensures video.id != Empty ==> saved == video
      ensures video.id == Empty ==> saved == video.(id := saved.id) && saved.id !in old(memory)
      ensures saved.id != Empty
      ensures memory == old(memory)[saved.id := saved]
      ensures GetById(saved.id) == Some(saved)
    {
      saved := video;
      if video.id == Empty {
        FreshIdExists(memory.Keys);
        var id :| id != Empty && id !in memory.Keys;
        saved := video.(id := id);
      }
      memory := memory[saved.id := saved];
    }

    /** Every stored video once, in the dictionary's own order. */
    ghost function GetAll(): (r: seq<VideoRow>)
      reads this
      ensures |r| == |memory|
      ensures forall v :: v in r <==> v in memory.Values
      ensures Valid() ==> NoDuplicates(r)
    {
      KeyedInjective(memory, (v: VideoRow) => v.id);
      Scan(memory)
    }

    /** The video stored under `id`, or null. */
    function GetById(id: Id): (r: Option<VideoRow>)
      reads this
      ensures r.None? <==> id !in memory
      ensures r.Some? ==> r.value in memory.Values
      ensures Valid() && r.Some? ==> r.value.id == id
    {
      if id in memory then Some(memory[id]) else None
    }

    /** The videos of one account, latest published first. */
    ghost function GetByAccountId(accountId: Id): (r: seq<VideoRow>)
      reads this
      ensures forall v :: v in r <==> v in memory.Values && v.accountId == accountId
      ensures forall i, j :: 0 <= i < j < |r| ==> r[i].publishedAt >= r[j].publishedAt
      ensures Valid() ==> NoDuplicates(r)
    {
      KeyedInjective(memory, (v: VideoRow) => v.id);
      Owned(accountId)
    }

    ghost function Owned(accountId: Id): (r: seq<VideoRow>)
      reads this
      ensures forall v :: v in r <==> v in memory.Values && v.accountId == accountId
      ensures forall i, j :: 0 <= i < j < |r| ==> r[i].publishedAt >= r[j].publishedAt
      ensures Injective(memory) ==> NoDuplicates(r)
    {
      Select(memory, (v: VideoRow) => v.accountId == accountId, ByPublishedAt)
    }

    /**
     * The `limit` most viewed videos, most viewed first; videos with equal views keep dictionary
     * order. A limit of zero or less gives nothing.
     */
    ghost function GetMostViewed(limit: int := 10): (r: seq<VideoRow>)
      reads this
      ensures |r| == if limit <= 0 then 0 else if limit < |memory| then limit else |memory|
      ensures forall v :: v in r ==> v in memory.Values
      ensures forall i, j :: 0 <= i < j < |r| ==> r[i].views >= r[j].views
      ensures forall v, w :: v in r && w in memory.Values && w !in r ==> v.views >= w.views
      ensures Valid() ==> NoDuplicates(r)
    {
      var r := Top(memory, ByViews, limit);
      ViewsOrder(r, memory.Values);
      KeyedInjective(memory, (v: VideoRow) => v.id);
      r
    }

    /** Replaces the stored video with the same id; an id that is not stored throws. */
    method Update(video: VideoRow) returns (r: Outcome)
      requires Valid()
      modifies this
      ensures Valid()
      ensures r.Fail? <==> video.id !in old(memory)
      ensures r.Fail? ==> r.error == KeyNotFound && memory == old(memory)
      ensures r.Done? ==> memory == old(memory)[video.id := video]
      ensures r.Done? ==> GetById(video.id) == Some(video)
    {
      if video.id in memory {
        memory := memory[video.id := video];
        r := Done;
      } else {
        r := Fail(KeyNotFound);
      }
    }

    /** Removes the entry for `id`, if any; nothing else changes. */
    method Delete(id: Id)
      requires Valid()
      modifies this
      ensures Valid()
      ensures memory == old(memory) - {id}
      ensures GetById(id) == None
      ensures forall k :: k != id ==> GetById(k) == old(GetById(k))
    {
      memory := memory - {id};
    }
  }

  class InMemoryCommentRepository {
    var memory: map<Id, CommentRow>

    /** Every entry sits under its own, non-empty id. */
    ghost predicate Valid()
      reads this
    {
      forall k :: k in memory ==> k != Empty && memory[k].id == k
    }

    constructor ()
      ensures Valid() && memory == map[]
    {
      memory := map[];
    }

    /**
     * Gives a comment without an id a new one, then stores it under its id, replacing whatever was
     * stored there. The video and the author are not checked.
     */
    method Save(comment: CommentRow) returns (saved: CommentRow)
      requires Valid()
      modifies this
      ensures Valid()
      ensures comment.id != Empty ==> saved == comment
      ensures comment.id == Empty ==> saved == comment.(id := saved.id) && saved.id !in old(memory)
      ensures saved.id != Empty
      ensures memory == old(memory)[saved.id := saved]
      ensures GetById(saved.id) == Some(saved)
    {
      saved := comment;
      if comment.id == Empty {
        FreshIdExists(memory.Keys);
        var id :| id != Empty && id !in memory.Keys;
        saved := comment.(id := id);
      }
      memory := memory[saved.id := saved];
    }

    /** Every stored comment once, in the dictionary's own order. */
    ghost function GetAll(): (r: seq<CommentRow>)
      reads this
      ensures |r| == |memory|
      ensures forall c :: c in r <==> c in memory.Values
      ensures Valid() ==> NoDuplicates(r)
    {
      KeyedInjective(memory, (c: CommentRow) => c.id);
      Scan(memory)
    }

    /** The comment stored under `id`, or null. */
    function GetById(id: Id): (r: Option<CommentRow>)
      reads this
      ensures r.None? <==> id !in memory
      ensures r.Some? ==> r.value in memory.Values
      ensures Valid() && r.Some? ==> r.value.id == id
    {
      if id in memory then Some(memory[id]) else None
    }

    /** The comments on one video, newest first. */
    ghost function GetByVideoId(videoId: Id): (r: seq<CommentRow>)
      reads this
      ensures forall c :: c in r <==> c in memory.Values && c.videoId == videoId
      ensures forall i, j :: 0 <= i < j < |r| ==> r[i].createdAt >= r[j].createdAt
      ensures Valid() ==> NoDuplicates(r)
    {
      KeyedInjective(memory, (c: CommentRow) => c.id);
      OnVideo(videoId)
    }

    ghost function OnVideo(videoId: Id): (r: seq<CommentRow>)
      reads this
      ensures forall c :: c in r <==> c in memory.Values && c.videoId == videoId
      ensures forall i, j :: 0 <= i < j < |r| ==> r[i].createdAt >= r[j].createdAt
      ensures Injective(memory) ==> NoDuplicates(r)
    {
      Select(memory, (c: CommentRow) => c.videoId == videoId, ByCreatedAt)
    }

    /** The comments by one author, newest first. */
    ghost function GetByAuthorId(authorId: Id): (r: seq<CommentRow>)
      reads this
      ensures forall c :: c in r <==> c in memory.Values && c.authorId == authorId
      ensures forall i, j :: 0 <= i < j < |r| ==> r[i].createdAt >= r[j].createdAt
      ensures Valid() ==> NoDuplicates(r)
    {
      KeyedInjective(memory, (c: CommentRow) => c.id);
      ByAuthor(authorId)
    }

    ghost function ByAuthor(authorId: Id): (r: seq<CommentRow>)
      reads this
      ensures forall c :: c in r <==> c in memory.Values && c.authorId == authorId
      ensures forall i, j :: 0 <= i < j < |r| ==> r[i].createdAt >= r[j].createdAt
      ensures Injective(memory) ==> NoDuplicates(r)
    {
      Select(memory, (c: CommentRow) => c.authorId == authorId, ByCreatedAt)
    }

    /** Replaces the stored comment with the same id; an id that is not stored throws. */
    method Update(comment: CommentRow) returns (r: Outcome)
      requires Valid()
      modifies this
      ensures Valid()
      ensures r.Fail? <==> comment.id !in old(memory)
      ensures r.Fail? ==> r.error == KeyNotFound && memory == old(memory)
      ensures r.Done? ==> memory == old(memory)[comment.id := comment]
      ensures r.Done? ==> GetById(comment.id) == Some(comment)
    {
      if comment.id in memory {
        memory := memory[comment.id := comment];
        r := Done;
      } else {
        r := Fail(KeyNotFound);
      }
    }

    /** Removes the entry for `id`, if any; nothing else changes. */
    method Delete(id: Id)
      requires Valid()
      modifies this
      ensures Valid()
      ensures memory == old(memory) - {id}
      ensures GetById(id) == None
      ensures forall k :: k != id ==> GetById(k) == old(GetById(k))
    {
      memory := memory - {id};
    }
  }
}
