/**
 * The two backends side by side: where the in-memory backend and the persistent backend give
 * different answers to the same calls, and the store-level consequences of each.
 */
module Backends {
  import opened Common
  import opened Models
  import opened Queries
  import opened Schema
  import opened InMemory
  import opened Persistent

  // ---------------------------------------------------------------------------------------------
  // Listing everything
  // ---------------------------------------------------------------------------------------------

  /**
   * Listing every video: both backends list the same videos, but the persistent one sorts them by
   * publication date, latest first, while the in-memory one keeps dictionary order, so the two
   * agree only when that order is already sorted. Where no two videos share a publication time,
   * the persistent listing is the sort of the dictionary's listing, whatever order the dictionary
   * keeps, and a sorted dictionary order gives the same listing. Where two videos tie, SQL's
   * `ORDER BY` leaves their order open, and nothing is stated about it.
   */
  lemma VideoListingDivergence(memory: InMemoryVideoRepository, persistent: PersistentVideoRepository)
    requires memory.memory == persistent.context.videos
    ensures multiset(memory.GetAll()) == multiset(persistent.GetAll())
    ensures memory.GetAll() == persistent.GetAll() ==> SortedBy(memory.GetAll(), ByPublishedAt)
    ensures RanksDistinct(memory.memory, ByPublishedAt) ==>
      forall ks :: IsEnumeration(ks, memory.memory) ==>
        persistent.GetAll() == SortDescending(ValuesAt(memory.memory, ks), ByPublishedAt)
    ensures RanksDistinct(memory.memory, ByPublishedAt) && SortedBy(memory.GetAll(), ByPublishedAt) ==>
      memory.GetAll() == persistent.GetAll()
  {
    var m := memory.memory;
    if RanksDistinct(m, ByPublishedAt) {
      forall ks | IsEnumeration(ks, m)
        ensures persistent.GetAll() == SortDescending(ValuesAt(m, ks), ByPublishedAt)
      {
        SortedIgnoresScanOrder(m, ByPublishedAt, ks);
      }
      if SortedBy(memory.GetAll(), ByPublishedAt) {
        SortOfSortedIsSame(memory.GetAll(), ByPublishedAt);
      }
    }
  }

  /**
   * Listing every comment: both backends list the same comments, but the persistent one sorts
   * them by creation time, newest first, while the in-memory one keeps dictionary order, so the
   * two agree only when that order is already sorted. Where no two comments share a creation
   * time, the persistent listing is the sort of the dictionary's listing, whatever order the
   * dictionary keeps, and a sorted dictionary order gives the same listing. Where two comments
   * tie, SQL's `ORDER BY` leaves their order open, and nothing is stated about it.
   */
  lemma CommentListingDivergence(memory: InMemoryCommentRepository, persistent: PersistentCommentRepository)
    requires memory.memory == persistent.context.comments
    ensures multiset(memory.GetAll()) == multiset(persistent.GetAll())
    ensures memory.GetAll() == persistent.GetAll() ==> SortedBy(memory.GetAll(), ByCreatedAt)
    ensures RanksDistinct(memory.memory, ByCreatedAt) ==>
      forall ks :: IsEnumeration(ks, memory.memory) ==>
        persistent.GetAll() == SortDescending(ValuesAt(memory.memory, ks), ByCreatedAt)
    ensures RanksDistinct(memory.memory, ByCreatedAt) && SortedBy(memory.GetAll(), ByCreatedAt) ==>
      memory.GetAll() == persistent.GetAll()
  {
    var m := memory.memory;
    if RanksDistinct(m, ByCreatedAt) {
      forall ks | IsEnumeration(ks, m)
        ensures persistent.GetAll() == SortDescending(ValuesAt(m, ks), ByCreatedAt)
      {
        SortedIgnoresScanOrder(m, ByCreatedAt, ks);
      }
      if SortedBy(memory.GetAll(), ByCreatedAt) {
        SortOfSortedIsSame(memory.GetAll(), ByCreatedAt);
      }
    }
  }

  // ---------------------------------------------------------------------------------------------
  // Most viewed: ties
  // ---------------------------------------------------------------------------------------------

  /**
   * In memory, videos with equal views come out in dictionary order: when every stored video has
   * the same number of views, the most viewed are just the first `limit` the dictionary yields.
   */
  lemma InMemoryTiesFollowDictionaryOrder(repo: InMemoryVideoRepository, limit: int)
    requires forall v, w :: v in repo.memory.Values && w in repo.memory.Values ==> v.views == w.views
    ensures repo.GetMostViewed(limit) == Take(repo.GetAll(), limit)
  {
    var all := Scan(repo.memory);
    forall i, j | 0 <= i < |all| && 0 <= j < |all|
      ensures ByViews(all[i]) == ByViews(all[j])
    {
      assert all[i] in repo.memory.Values && all[j] in repo.memory.Values;
    }
    SortTiesKeepOrder(all, ByViews);
  }

  /**
   * The persistent ranking does not depend on the order the table is scanned in: as long as no
   * two stored videos share both views and publication date, sorting the stored videos in any
   * enumeration order gives the same most viewed.
   */
  lemma PersistentMostViewedIgnoresScanOrder(repo: PersistentVideoRepository, ks: seq<Id>, limit: int)
    requires RanksDistinct(repo.context.videos, ByViewsThenPublishedAt)
    requires IsEnumeration(ks, repo.context.videos)
    ensures repo.GetMostViewed(limit) ==
      Limit(SortDescending(ValuesAt(repo.context.videos, ks), ByViewsThenPublishedAt), limit)
  {
    SqlTopIgnoresScanOrder(repo.context.videos, ByViewsThenPublishedAt, ks, limit);
  }

  /**
   * A negative limit: LINQ's `Take` on the in-memory list gives nothing, while SQLite's `LIMIT`
   * sets no limit, so the persistent backend returns every stored video, ranked.
   */
  lemma NegativeLimitDivergence(memory: InMemoryVideoRepository, persistent: PersistentVideoRepository, limit: int)
    requires limit < 0
    requires memory.memory == persistent.context.videos
    ensures memory.GetMostViewed(limit) == []
    ensures |persistent.GetMostViewed(limit)| == |persistent.context.videos|
    ensures forall v :: v in persistent.GetMostViewed(limit) <==> v in memory.memory.Values
  {
  }

  /**
   * Two videos with equal views: the persistent backend puts the later published one first,
   * whatever the table order.
   */
  lemma PersistentTieGoesToLaterVideo(repo: PersistentVideoRepository, earlier: VideoRow, later: VideoRow)
    requires repo.context.videos == map[earlier.id := earlier, later.id := later]
    requires earlier.id != later.id
    requires earlier.views == later.views && earlier.publishedAt < later.publishedAt
    ensures repo.GetMostViewed(2) == [later, earlier]
  {
    var key := ByViewsThenPublishedAt;
    StrictlyDescending([later, earlier], key);
    var m := repo.context.videos;
    assert m[earlier.id] == earlier && m[later.id] == later;
    TopIsDetermined(repo.context.videos, key, [later, earlier], 2);
  }

  /** The `n`th video of the example: published at time `n`, with `views` views. */
  function Clip(n: nat, views: int32, owner: Id): VideoRow {
    VideoRow(Guid(n), "video", None, 60, views, n, owner)
  }

  /** The five videos of the example, with views 10, 30, 30, 5 and 0, keyed by id. */
  function ClipStore(owner: Id): map<Id, VideoRow> {
    map[Guid(1) := Clip(1, 10, owner), Guid(2) := Clip(2, 30, owner), Guid(3) := Clip(3, 30, owner),
        Guid(4) := Clip(4, 5, owner), Guid(5) := Clip(5, 0, owner)]
  }

  /**
   * The example ranked: no two of its videos rank equal, since their publication times differ,
   * and ordered by views then publication date they are the later 30-view video, the earlier one,
   * then the 10-, 5- and 0-view videos.
   */
  lemma ClipStoreRanking(owner: Id)
    ensures var m, t := ClipStore(owner), [Clip(3, 30, owner), Clip(2, 30, owner), Clip(1, 10, owner), Clip(4, 5, owner), Clip(5, 0, owner)];
      && RanksDistinct(m, ByViewsThenPublishedAt)
      && SortedBy(t, ByViewsThenPublishedAt) && NoDuplicates(t)
      && forall v :: v in t <==> v in m.Values
  {
    var m := ClipStore(owner);
    var t := [Clip(3, 30, owner), Clip(2, 30, owner), Clip(1, 10, owner), Clip(4, 5, owner), Clip(5, 0, owner)];
    ClipStoreRanksDistinct(owner);
    StrictlyDescending(t, ByViewsThenPublishedAt);
    forall v ensures v in t <==> v in m.Values {
      if v in t {
        assert m[v.id] == v;
      }
    }
  }

  /** Each example video is stored under its own id; so no two rank equal. */
  lemma ClipStoreRanksDistinct(owner: Id)
    ensures RanksDistinct(ClipStore(owner), ByViewsThenPublishedAt)
  {
    var m := ClipStore(owner);
    forall k | k in m ensures m[k] == Clip(k.n, m[k].views, owner) {
    }
  }

  /**
   * On the example of five videos with views 10, 30, 30, 5 and 0, the two 30-view videos
   * published at different times, the three most viewed are the later 30-view video, then the
   * earlier one, then the 10-view video.
   */
  lemma PersistentTopThreeExample(repo: PersistentVideoRepository, owner: Id)
    requires repo.context.videos == ClipStore(owner)
    ensures repo.GetMostViewed(3) == [Clip(3, 30, owner), Clip(2, 30, owner), Clip(1, 10, owner)]
  {
    var t := [Clip(3, 30, owner), Clip(2, 30, owner), Clip(1, 10, owner), Clip(4, 5, owner), Clip(5, 0, owner)];
    ClipStoreRanking(owner);
    TopIsDetermined(ClipStore(owner), ByViewsThenPublishedAt, t, 3);
    assert Take(t, 3) == t[..3];
  }

  // ---------------------------------------------------------------------------------------------
  // Uniqueness
  // ---------------------------------------------------------------------------------------------

  /**
   * Two accounts with the same username: the persistent store takes the first and rejects the
   * second, while the in-memory dictionary keeps both.
   */
  lemma DuplicateUsernameDivergence(
    s: Store, a: AccountRow, b: AccountRow, repo: InMemoryAccountRepository, before: map<Id, AccountRow>)
    requires Valid(s) && a.id != Empty && b.id != Empty && a.id != b.id
    requires a.username == b.username
    requires InsertAccount(s, a).Some?
    requires repo.memory == before[a.id := a][b.id := b]
    ensures InsertAccount(InsertAccount(s, a).value, b).None?
    ensures a in repo.GetAll() && b in repo.GetAll()
    ensures repo.GetByUsername(a.username).Some?
  {
    var t := InsertAccount(s, a).value;
    InsertAccountKeepsValid(s, a);
    assert t.accounts[a.id].username == b.username;
    assert repo.memory[a.id] == a && repo.memory[b.id] == b;
    assert EqualsIgnoreCase(a.username, a.username);
  }

  // ---------------------------------------------------------------------------------------------
  // Updates
  // ---------------------------------------------------------------------------------------------

  /**
   * Updating a comment: the in-memory backend stores the caller's comment whole, while the
   * persistent backend copies only the text, the counters and the edited flag onto the stored row.
   * Starting from the same comments, the two end up holding the same row exactly when the caller's
   * comment keeps the stored creation time, video and author.
   */
  lemma CommentUpdateDivergence(
    memory: InMemoryCommentRepository, persistent: PersistentCommentRepository, s: Store, u: CommentRow)
    requires Valid(s) && u.id in s.comments
    requires memory.memory == s.comments[u.id := u]
    requires UpdateComment(s, CommentEdits(s.comments[u.id], u)) == Some(persistent.context.State())
    ensures memory.GetById(u.id) == Some(u)
    ensures persistent.GetById(u.id) == Some(CommentEdits(s.comments[u.id], u))
    ensures memory.GetById(u.id) == persistent.GetById(u.id) <==>
      var c := s.comments[u.id];
      u.createdAt == c.createdAt && u.videoId == c.videoId && u.authorId == c.authorId
  {
  }

  /**
   * Updating a video: the in-memory backend stores the caller's video whole, while the persistent
   * backend copies every column but the owner onto the stored row. Starting from the same videos,
   * the two end up holding the same row exactly when the caller's video keeps the stored owner.
   */
  lemma VideoUpdateDivergence(
    memory: InMemoryVideoRepository, persistent: PersistentVideoRepository, s: Store, u: VideoRow)
    requires Valid(s) && u.id in s.videos
    requires memory.memory == s.videos[u.id := u]
    requires UpdateVideo(s, VideoEdits(s.videos[u.id], u)) == Some(persistent.context.State())
    ensures memory.GetById(u.id) == Some(u)
    ensures persistent.GetById(u.id) == Some(VideoEdits(s.videos[u.id], u))
    ensures memory.GetById(u.id) == persistent.GetById(u.id) <==> u.accountId == s.videos[u.id].accountId
  {
  }

  /**
   * The unique index compares usernames exactly while lookups ignore case: "Bob" and "bob" can
   * both be stored, and both answer a lookup of either.
   */
  lemma CaseVariantUsernamesCoexist(s: Store, a: AccountRow, b: AccountRow)
    requires Valid(s) && a.id != Empty && b.id != Empty && a.id != b.id
    requires a.id !in s.accounts && b.id !in s.accounts
    requires forall k :: k in s.accounts ==> s.accounts[k].username != a.username && s.accounts[k].username != b.username
    requires forall k :: k in s.accounts ==> s.accounts[k].email != a.email && s.accounts[k].email != b.email
    requires a.email != b.email && AccountColumnsFit(a) && AccountColumnsFit(b)
    requires a.username == "Bob" && b.username == "bob"
    ensures InsertAccount(s, a).Some?
    ensures InsertAccount(InsertAccount(s, a).value, b).Some?
    ensures Valid(InsertAccount(InsertAccount(s, a).value, b).value)
    ensures EqualsIgnoreCase(a.username, b.username)
  {
    InsertAccountKeepsValid(s, a);
    var t := InsertAccount(s, a).value;
    assert "Bob" != "bob" by {
      assert "Bob"[0] != "bob"[0];
    }
    assert t.accounts == s.accounts[a.id := a];
    assert b.id !in t.accounts;
    assert UsernameFree(t.accounts, b.username, b.id) && EmailFree(t.accounts, b.email, b.id);
    InsertAccountKeepsValid(t, b);
    assert ToLower("Bob") == "bob" by {
      assert ToLowerChar('B') == 'b';
    }
    assert ToLower("bob") == "bob";
  }

  // ---------------------------------------------------------------------------------------------
  // Referential integrity
  // ---------------------------------------------------------------------------------------------

  /**
   * Removing an account from the in-memory dictionaries removes nothing else, which breaks a
   * reference exactly when the account owned a video or authored a comment; the persistent
   * store refuses the second case and cascades the first.
   */
  lemma InMemoryAccountDeleteLeavesDanglingReferences(s: Store, id: Id)
    requires Valid(s) && id in s.accounts
    ensures ForeignKeysHold(Store(s.accounts - {id}, s.videos, s.comments)) <==>
      OwnedVideos(s, id) == {} && !HasAuthoredComments(s, id)
    ensures HasAuthoredComments(s, id) ==> DeleteAccount(s, id).None?
    ensures !HasAuthoredComments(s, id) ==> Valid(DeleteAccount(s, id).value)
  {
    if !HasAuthoredComments(s, id) {
      DeleteAccountKeepsValid(s, id);
    }
    var t := Store(s.accounts - {id}, s.videos, s.comments);
    if OwnedVideos(s, id) != {} {
      var k :| k in OwnedVideos(s, id);
      assert s.videos[k].accountId !in t.accounts;
    } else if HasAuthoredComments(s, id) {
      var k :| k in s.comments && s.comments[k].authorId == id;
      assert s.comments[k].authorId !in t.accounts;
    } else {
      forall k | k in t.videos ensures t.videos[k].accountId in t.accounts {
        assert k !in OwnedVideos(s, id);
      }
      forall k | k in t.comments ensures t.comments[k].videoId in t.videos && t.comments[k].authorId in t.accounts {
        assert s.comments[k].authorId != id;
      }
      assert ForeignKeysHold(t);
    }
  }

  /**
   * Removing a video from the in-memory dictionary leaves its comments behind, which breaks a
   * reference exactly when the video had a comment; the persistent store removes them with it.
   */
  lemma InMemoryVideoDeleteLeavesDanglingReferences(s: Store, id: Id)
    requires Valid(s) && id in s.videos
    ensures ForeignKeysHold(Store(s.accounts, s.videos - {id}, s.comments)) <==>
      forall k :: k in s.comments ==> s.comments[k].videoId != id
    ensures Valid(DeleteVideo(s, id))
  {
    DeleteVideoCascades(s, id);
    var t := Store(s.accounts, s.videos - {id}, s.comments);
    if forall k :: k in s.comments ==> s.comments[k].videoId != id {
      forall k | k in t.comments ensures t.comments[k].videoId in t.videos && t.comments[k].authorId in t.accounts {
        assert s.comments[k].videoId != id;
      }
      assert ForeignKeysHold(t);
    } else {
      var k :| k in s.comments && s.comments[k].videoId == id;
      assert t.comments[k].videoId !in t.videos;
    }
  }

  /**
   * After the persistent backend deletes a video, no comment on it can be found, neither by
   * video nor by id.
   */
  lemma DeletedVideoHasNoComments(comments: PersistentCommentRepository, s: Store, id: Id)
    requires comments.context.State() == DeleteVideo(s, id)
    ensures comments.GetByVideoId(id) == []
    ensures forall k :: k in s.comments && s.comments[k].videoId == id ==> comments.GetById(k) == None
  {
    var t := comments.context.comments;
    forall c | c in t.Values ensures c.videoId != id {
      var k :| k in t && t[k] == c;
    }
    var r := comments.GetByVideoId(id);
    assert forall c :: c !in r;
    EmptyWithoutMembers(r);
  }
}
