/**
 * The relational store behind the persistent backend: three id-keyed tables, the integrity rules
 * the model builder declares (keys, unique indexes, required columns with maximum lengths,
 * foreign keys with cascade or restrict on delete) and the seed data. Every change either
 * satisfies the rules and is committed, or is rejected (`None`) and leaves the tables unchanged.
 * Timestamps are DateTime ticks.
 */
module Schema {
  import opened Common
  import opened Models
  import opened Queries

  datatype Store = Store(
    accounts: map<Id, AccountRow>,
    videos: map<Id, VideoRow>,
    comments: map<Id, CommentRow>)

  // ---------------------------------------------------------------------------------------------
  // Column rules
  // ---------------------------------------------------------------------------------------------

  const MaxUsernameLength := 50
  const MaxEmailLength := 100
  const MaxTitleLength := 200
  const MaxDescriptionLength := 5000
  const MaxTextLength := 2000

  predicate AccountColumnsFit(a: AccountRow) {
    |a.username| <= MaxUsernameLength && |a.email| <= MaxEmailLength
  }

  predicate VideoColumnsFit(v: VideoRow) {
    |v.title| <= MaxTitleLength
    && (v.description.Some? ==> |v.description.value| <= MaxDescriptionLength)
  }

  predicate CommentColumnsFit(c: CommentRow) {
    |c.text| <= MaxTextLength
  }

  // ---------------------------------------------------------------------------------------------
  // Table rules
  // ---------------------------------------------------------------------------------------------

  /** Primary keys: each row is stored under its own id, which is never Guid.Empty. */
  predicate KeyedById(s: Store) {
    && (forall k :: k in s.accounts ==> k != Empty && s.accounts[k].id == k)
    && (forall k :: k in s.videos ==> k != Empty && s.videos[k].id == k)
    && (forall k :: k in s.comments ==> k != Empty && s.comments[k].id == k)
  }

  /** The unique index on Username (compared exactly, as the index compares). */
  predicate UniqueUsernames(accounts: map<Id, AccountRow>) {
    forall j, k :: j in accounts && k in accounts && j != k ==> accounts[j].username != accounts[k].username
  }

  /** The unique index on Email. */
  predicate UniqueEmails(accounts: map<Id, AccountRow>) {
    forall j, k :: j in accounts && k in accounts && j != k ==> accounts[j].email != accounts[k].email
  }

  /** Every video has its account; every comment has its video and its author. */
  predicate ForeignKeysHold(s: Store) {
    && (forall k :: k in s.videos ==> s.videos[k].accountId in s.accounts)
    && (forall k :: k in s.comments ==> s.comments[k].videoId in s.videos && s.comments[k].authorId in s.accounts)
  }

  predicate ColumnsFit(s: Store) {
    && (forall k :: k in s.accounts ==> AccountColumnsFit(s.accounts[k]))
    && (forall k :: k in s.videos ==> VideoColumnsFit(s.videos[k]))
    && (forall k :: k in s.comments ==> CommentColumnsFit(s.comments[k]))
  }

  /** The store-wide invariant: every rule the model builder declares. */
  predicate Valid(s: Store): (r: bool)
    ensures r ==> forall k :: k in s.comments ==>
      s.comments[k].videoId in s.videos && s.videos[s.comments[k].videoId].accountId in s.accounts
  {
    && KeyedById(s)
    && UniqueUsernames(s.accounts)
    && UniqueEmails(s.accounts)
    && ForeignKeysHold(s)
    && ColumnsFit(s)
  }

  /** Rows are keyed by their ids, so no two keys hold the same row. */
  lemma KeyedRowsDistinct(s: Store)
    ensures KeyedById(s) ==> Injective(s.accounts) && Injective(s.videos) && Injective(s.comments)
  {
  }

  // ---------------------------------------------------------------------------------------------
  // Inserts and updates
  // ---------------------------------------------------------------------------------------------

  /** No account other than the one stored under `id` uses `username`. */
  predicate UsernameFree(accounts: map<Id, AccountRow>, username: string, id: Id) {
    forall k :: k in accounts && k != id ==> accounts[k].username != username
  }

  predicate EmailFree(accounts: map<Id, AccountRow>, email: string, id: Id) {
    forall k :: k in accounts && k != id ==> accounts[k].email != email
  }

  /** INSERT INTO accounts. */
  function InsertAccount(s: Store, a: AccountRow): (r: Option<Store>)
    ensures r.Some? ==> a.id !in s.accounts && SubStore(s, r.value)
    ensures r.Some? ==> r.value.accounts.Keys == s.accounts.Keys + {a.id} && r.value.accounts[a.id] == a
    ensures r.Some? ==> r.value.videos == s.videos && r.value.comments == s.comments
  {
    if a.id !in s.accounts && UsernameFree(s.accounts, a.username, a.id)
       && EmailFree(s.accounts, a.email, a.id) && AccountColumnsFit(a)
    then Some(s.(accounts := s.accounts[a.id := a]))
    else None
  }

  /** INSERT INTO videos. */
  function InsertVideo(s: Store, v: VideoRow): (r: Option<Store>)
    ensures r.Some? ==> v.id !in s.videos && SubStore(s, r.value)
    ensures r.Some? ==> r.value.videos.Keys == s.videos.Keys + {v.id} && r.value.videos[v.id] == v
    ensures r.Some? ==> r.value.accounts == s.accounts && r.value.comments == s.comments
  {
    if v.id !in s.videos && v.accountId in s.accounts && VideoColumnsFit(v)
    then Some(s.(videos := s.videos[v.id := v]))
    else None
  }

  /** INSERT INTO comments. */
  function InsertComment(s: Store, c: CommentRow): (r: Option<Store>)
    ensures r.Some? ==> c.id !in s.comments && SubStore(s, r.value)
    ensures r.Some? ==> r.value.comments.Keys == s.comments.Keys + {c.id} && r.value.comments[c.id] == c
    ensures r.Some? ==> r.value.accounts == s.accounts && r.value.videos == s.videos
  {
    if c.id !in s.comments && c.videoId in s.videos && c.authorId in s.accounts && CommentColumnsFit(c)
    then Some(s.(comments := s.comments[c.id := c]))
    else None
  }

  /** UPDATE accounts: the stored row becomes `a`. */
  function UpdateAccount(s: Store, a: AccountRow): (r: Option<Store>)
    requires a.id in s.accounts
    ensures r.Some? ==> r.value.accounts.Keys == s.accounts.Keys && r.value.accounts[a.id] == a
    ensures r.Some? ==> forall k :: k in s.accounts && k != a.id ==> r.value.accounts[k] == s.accounts[k]
    ensures r.Some? ==> r.value.videos == s.videos && r.value.comments == s.comments
  {
    if UsernameFree(s.accounts, a.username, a.id) && EmailFree(s.accounts, a.email, a.id) && AccountColumnsFit(a)
    then Some(s.(accounts := s.accounts[a.id := a]))
    else None
  }

  /** UPDATE videos: the stored row becomes `v`, which keeps the stored id and account. */
  function UpdateVideo(s: Store, v: VideoRow): (r: Option<Store>)
    requires v.id in s.videos && v.accountId == s.videos[v.id].accountId
    ensures r.Some? ==> r.value.videos.Keys == s.videos.Keys && r.value.videos[v.id] == v
    ensures r.Some? ==> forall k :: k in s.videos && k != v.id ==> r.value.videos[k] == s.videos[k]
    ensures r.Some? ==> r.value.accounts == s.accounts && r.value.comments == s.comments
  {
    if VideoColumnsFit(v) then Some(s.(videos := s.videos[v.id := v])) else None
  }

  /** UPDATE comments: the stored row becomes `c`, which keeps the stored id, video and author. */
  function UpdateComment(s: Store, c: CommentRow): (r: Option<Store>)
    requires c.id in s.comments
    requires c.videoId == s.comments[c.id].videoId && c.authorId == s.comments[c.id].authorId
    ensures r.Some? ==> r.value.comments.Keys == s.comments.Keys && r.value.comments[c.id] == c
    ensures r.Some? ==> forall k :: k in s.comments && k != c.id ==> r.value.comments[k] == s.comments[k]
    ensures r.Some? ==> r.value.accounts == s.accounts && r.value.videos == s.videos
  {
    if CommentColumnsFit(c) then Some(s.(comments := s.comments[c.id := c])) else None
  }

  /** Inserting an account either keeps every rule or is rejected; a rejection is exactly a broken rule. */
  lemma InsertAccountKeepsValid(s: Store, a: AccountRow)
    requires Valid(s) && a.id != Empty
    ensures InsertAccount(s, a).None? <==>
      a.id in s.accounts || !AccountColumnsFit(a)
      || (exists k :: k in s.accounts && s.accounts[k].username == a.username)
      || (exists k :: k in s.accounts && s.accounts[k].email == a.email)
    ensures InsertAccount(s, a).Some? ==> Valid(InsertAccount(s, a).value)
  {
    if InsertAccount(s, a).Some? {
      var t := Store(s.accounts[a.id := a], s.videos, s.comments);
      assert InsertAccount(s, a) == Some(t);
      assert KeyedById(t) && ForeignKeysHold(t) && ColumnsFit(t);
      assert UniqueUsernames(t.accounts) && UniqueEmails(t.accounts);
    }
  }

  /** Inserting a video keeps every rule; it is rejected exactly for a taken id, a missing account or an overlong column. */
  lemma InsertVideoKeepsValid(s: Store, v: VideoRow)
    requires Valid(s) && v.id != Empty
    ensures InsertVideo(s, v).None? <==> v.id in s.videos || v.accountId !in s.accounts || !VideoColumnsFit(v)
    ensures InsertVideo(s, v).Some? ==> Valid(InsertVideo(s, v).value)
  {
    if InsertVideo(s, v).Some? {
      var t := Store(s.accounts, s.videos[v.id := v], s.comments);
      assert InsertVideo(s, v) == Some(t);
      assert KeyedById(t) && ForeignKeysHold(t) && ColumnsFit(t);
    }
  }

  /**
   * Inserting a comment keeps every rule; it is rejected exactly for a taken id, a missing video or
   * author, or an overlong text; the video and account tables are not touched, so neither is
   * inserted again.
   */
  lemma InsertCommentKeepsValid(s: Store, c: CommentRow)
    requires Valid(s) && c.id != Empty
    ensures InsertComment(s, c).None? <==>
      c.id in s.comments || c.videoId !in s.videos || c.authorId !in s.accounts || !CommentColumnsFit(c)
    ensures InsertComment(s, c).Some? ==>
      var t := InsertComment(s, c).value;
      Valid(t) && t.accounts == s.accounts && t.videos == s.videos
  {
    if InsertComment(s, c).Some? {
      var t := Store(s.accounts, s.videos, s.comments[c.id := c]);
      assert InsertComment(s, c) == Some(t);
      assert KeyedById(t) && ForeignKeysHold(t) && ColumnsFit(t);
    }
  }

  /**
   * Updating an account keeps every rule; it is rejected exactly when another account holds the
   * new username or email, or a column is overlong.
   */
  lemma UpdateAccountKeepsValid(s: Store, a: AccountRow)
    requires Valid(s) && a.id in s.accounts
    ensures UpdateAccount(s, a).None? <==>
      !AccountColumnsFit(a)
      || (exists k :: k in s.accounts && k != a.id && s.accounts[k].username == a.username)
      || (exists k :: k in s.accounts && k != a.id && s.accounts[k].email == a.email)
    ensures UpdateAccount(s, a).Some? ==> Valid(UpdateAccount(s, a).value)
  {
    if UpdateAccount(s, a).Some? {
      var t := Store(s.accounts[a.id := a], s.videos, s.comments);
      assert UpdateAccount(s, a) == Some(t);
      assert KeyedById(t) && ForeignKeysHold(t) && ColumnsFit(t);
      assert UniqueUsernames(t.accounts) && UniqueEmails(t.accounts);
    }
  }

  /** Updating a video keeps every rule; it is rejected exactly for an overlong column. */
  lemma UpdateVideoKeepsValid(s: Store, v: VideoRow)
    requires Valid(s) && v.id in s.videos && v.accountId == s.videos[v.id].accountId
    ensures UpdateVideo(s, v).None? <==> !VideoColumnsFit(v)
    ensures UpdateVideo(s, v).Some? ==> Valid(UpdateVideo(s, v).value)
  {
    if VideoColumnsFit(v) {
      var t := Store(s.accounts, s.videos[v.id := v], s.comments);
      assert UpdateVideo(s, v) == Some(t);
      assert KeyedById(t) && ForeignKeysHold(t) && ColumnsFit(t);
    }
  }

  /** Updating a comment keeps every rule; it is rejected exactly for an overlong text. */
  lemma UpdateCommentKeepsValid(s: Store, c: CommentRow)
    requires Valid(s) && c.id in s.comments
    requires c.videoId == s.comments[c.id].videoId && c.authorId == s.comments[c.id].authorId
    ensures UpdateComment(s, c).None? <==> !CommentColumnsFit(c)
    ensures UpdateComment(s, c).Some? ==> Valid(UpdateComment(s, c).value)
  {
    if CommentColumnsFit(c) {
      ReplaceCommentKeepsValid(s, c);
    }
  }

  /** Replacing a comment's row by one with the same links and a text that fits keeps every rule. */
  lemma ReplaceCommentKeepsValid(s: Store, c: CommentRow)
    requires Valid(s) && c.id in s.comments && CommentColumnsFit(c)
    requires c.videoId == s.comments[c.id].videoId && c.authorId == s.comments[c.id].authorId
    ensures Valid(Store(s.accounts, s.videos, s.comments[c.id := c]))
  {
    var t := Store(s.accounts, s.videos, s.comments[c.id := c]);
    assert KeyedById(t) && ColumnsFit(t);
    forall k | k in t.comments ensures t.comments[k].videoId in t.videos && t.comments[k].authorId in t.accounts {
      assert t.comments[k].videoId == s.comments[k].videoId && t.comments[k].authorId == s.comments[k].authorId;
    }
  }

  // ---------------------------------------------------------------------------------------------
  // Deletes
  // ---------------------------------------------------------------------------------------------

  /** The ids of the videos `accountId` owns. */
  function OwnedVideos(s: Store, accountId: Id): set<Id> {
    set k | k in s.videos && s.videos[k].accountId == accountId
  }

  /** Some stored comment names `accountId` as its author. */
  predicate HasAuthoredComments(s: Store, accountId: Id) {
    exists k :: k in s.comments && s.comments[k].authorId == accountId
  }

  /**
   * DELETE FROM accounts: refused while the account authored a comment (restrict); otherwise the
   * account's videos go with it (cascade), and with them their comments (cascade).
   */
  function DeleteAccount(s: Store, id: Id): (r: Option<Store>)
    ensures r.None? <==> HasAuthoredComments(s, id)
    ensures r.Some? ==> SubStore(r.value, s) && id !in r.value.accounts
    ensures r.Some? ==> forall k :: k in r.value.videos ==> r.value.videos[k].accountId != id
  {
    if HasAuthoredComments(s, id) then None
    else
      var gone := OwnedVideos(s, id);
      Some(Store(
        s.accounts - {id},
        s.videos - gone,
        map k | k in s.comments && s.comments[k].videoId !in gone :: s.comments[k]))
  }

  /** DELETE FROM videos: the video's comments go with it (cascade). */
  function DeleteVideo(s: Store, id: Id): (r: Store)
    ensures SubStore(r, s) && id !in r.videos && r.accounts == s.accounts
    ensures forall k :: k in r.comments ==> r.comments[k].videoId != id
  {
    Store(s.accounts, s.videos - {id}, map k | k in s.comments && s.comments[k].videoId != id :: s.comments[k])
  }

  /** DELETE FROM comments: nothing depends on a comment. */
  function DeleteComment(s: Store, id: Id): (r: Store)
    ensures SubStore(r, s) && id !in r.comments
    ensures r.accounts == s.accounts && r.videos == s.videos
  {
    s.(comments := s.comments - {id})
  }

  /** Every row of `t` is a row of `s` under the same key, table by table. */
  predicate SubStore(t: Store, s: Store) {
    && (forall k :: k in t.accounts ==> k in s.accounts && t.accounts[k] == s.accounts[k])
    && (forall k :: k in t.videos ==> k in s.videos && t.videos[k] == s.videos[k])
    && (forall k :: k in t.comments ==> k in s.comments && t.comments[k] == s.comments[k])
  }

  /** Removing rows keeps the key, uniqueness and column rules; only the foreign keys can break. */
  lemma SubStoreKeepsRowRules(t: Store, s: Store)
    requires Valid(s) && SubStore(t, s)
    ensures KeyedById(t) && UniqueUsernames(t.accounts) && UniqueEmails(t.accounts) && ColumnsFit(t)
  {
  }

  /** An account delete that is not refused leaves no reference dangling. */
  lemma DeleteAccountKeepsForeignKeys(s: Store, id: Id)
    requires ForeignKeysHold(s) && !HasAuthoredComments(s, id)
    ensures ForeignKeysHold(DeleteAccount(s, id).value)
  {
    var gone := OwnedVideos(s, id);
    var accounts := s.accounts - {id};
    var videos := s.videos - gone;
    var comments := map k | k in s.comments && s.comments[k].videoId !in gone :: s.comments[k];
    assert DeleteAccount(s, id) == Some(Store(accounts, videos, comments));
    forall k | k in videos
      ensures videos[k].accountId in accounts
    {
      assert k !in gone;
    }
    forall k | k in comments
      ensures comments[k].videoId in videos && comments[k].authorId in accounts
    {
      var c := s.comments[k];
      assert comments[k] == c && c.videoId !in gone;
      assert c.authorId != id && c.authorId in s.accounts && c.videoId in s.videos;
    }
  }

  /** An account delete that is not refused keeps every rule. */
  lemma DeleteAccountKeepsValid(s: Store, id: Id)
    requires Valid(s) && !HasAuthoredComments(s, id)
    ensures Valid(DeleteAccount(s, id).value)
  {
    var t := DeleteAccount(s, id).value;
    assert SubStore(t, s);
    SubStoreKeepsRowRules(t, s);
    DeleteAccountKeepsForeignKeys(s, id);
  }

  /**
   * Deleting an account is refused, leaving the store as it was, exactly when the account authored
   * a comment. Otherwise it removes the account and every video it owned, keeps every other video,
   * removes exactly the comments on the removed videos, and keeps every rule.
   */
  lemma DeleteAccountCascades(s: Store, id: Id)
    requires Valid(s)
    ensures DeleteAccount(s, id).None? <==> HasAuthoredComments(s, id)
    ensures DeleteAccount(s, id).Some? ==>
      var t := DeleteAccount(s, id).value;
      && Valid(t)
      && t.accounts == s.accounts - {id}
      && (forall k :: k in t.videos <==> k in s.videos && s.videos[k].accountId != id)
      && (forall k :: k in t.videos ==> t.videos[k] == s.videos[k])
      && (forall k :: k in t.comments <==>
            k in s.comments && s.videos[s.comments[k].videoId].accountId != id)
      && (forall k :: k in t.comments ==> t.comments[k] == s.comments[k])
  {
    if !HasAuthoredComments(s, id) {
      DeleteAccountKeepsValid(s, id);
    }
  }

  /** A video delete leaves no reference dangling. */
  lemma DeleteVideoKeepsForeignKeys(s: Store, id: Id)
    requires ForeignKeysHold(s)
    ensures ForeignKeysHold(DeleteVideo(s, id))
  {
    var videos := s.videos - {id};
    var comments := map k | k in s.comments && s.comments[k].videoId != id :: s.comments[k];
    assert DeleteVideo(s, id) == Store(s.accounts, videos, comments);
    forall k | k in comments
      ensures comments[k].videoId in videos && comments[k].authorId in s.accounts
    {
      var c := s.comments[k];
      assert comments[k] == c && c.videoId != id;
      assert c.authorId in s.accounts && c.videoId in s.videos;
    }
  }

  /**
   * Deleting a video removes it and exactly its comments; accounts, the other videos and the other
   * comments stay as they were, and every rule still holds.
   */
  lemma DeleteVideoCascades(s: Store, id: Id)
    requires Valid(s)
    ensures var t := DeleteVideo(s, id);
      && Valid(t)
      && t.accounts == s.accounts
      && t.videos == s.videos - {id}
      && (forall k :: k in t.comments <==> k in s.comments && s.comments[k].videoId != id)
      && (forall k :: k in t.comments ==> t.comments[k] == s.comments[k])
  {
    assert SubStore(DeleteVideo(s, id), s);
    SubStoreKeepsRowRules(DeleteVideo(s, id), s);
    DeleteVideoKeepsForeignKeys(s, id);
  }

  /** Deleting a comment removes that comment only and keeps every rule. */
  lemma DeleteCommentKeepsValid(s: Store, id: Id)
    requires Valid(s)
    ensures Valid(DeleteComment(s, id))
    ensures DeleteComment(s, id).comments == s.comments - {id}
  {
  }

  // ---------------------------------------------------------------------------------------------
  // Seed data
  // ---------------------------------------------------------------------------------------------

  /** The two seeded account ids, 11111111-... and 22222222-..., their hex digits read as numbers. */
  const SeedAccount1Id := Guid(0x1111_1111_1111_1111_1111_1111_1111_1111)
  const SeedAccount2Id := Guid(0x2222_2222_2222_2222_2222_2222_2222_2222)

  /** The database as the model creates it: two accounts, no videos, no comments. */
  const Seed := Store(
    map[
      SeedAccount1Id := AccountRow(SeedAccount1Id, "TechMaster", "techmaster@youtube.com", 638396640000000000),
      SeedAccount2Id := AccountRow(SeedAccount2Id, "CodeQueen", "codequeen@youtube.com", 638408736000000000)],
    map[],
    map[])

  /** The seed accounts sit under their own, distinct ids, with distinct usernames and emails. */
  lemma SeedAccountsDistinct()
    ensures KeyedById(Seed) && UniqueUsernames(Seed.accounts) && UniqueEmails(Seed.accounts)
    ensures |Seed.accounts| == 2
  {
    assert SeedAccount1Id != SeedAccount2Id;
    assert Seed.accounts.Keys == {SeedAccount1Id, SeedAccount2Id};
    assert "TechMaster" != "CodeQueen" by {
      assert "TechMaster"[0] != "CodeQueen"[0];
    }
    assert "techmaster@youtube.com" != "codequeen@youtube.com" by {
      assert "techmaster@youtube.com"[0] != "codequeen@youtube.com"[0];
    }
  }

  /** The seed usernames and emails fit their columns. */
  lemma SeedColumnsFit()
    ensures ColumnsFit(Seed)
  {
    assert Seed.accounts.Keys == {SeedAccount1Id, SeedAccount2Id};
  }

  /** The seed data satisfies every rule, so the invariant holds from the start. */
  lemma SeedValid()
    ensures Valid(Seed)
    ensures |Seed.accounts| == 2 && Seed.videos == map[] && Seed.comments == map[]
  {
    SeedAccountsDistinct();
    SeedColumnsFit();
  }
}
