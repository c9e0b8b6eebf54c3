# YouTube storage core in Dafny

This project models the storage core of a small YouTube-like web service written in C#. The
service stores three kinds of entity:

- an **Account**, with a username and an email;
- a **Video**, owned by an account;
- a **Comment**, written by an account on a video.

Each entity has a few behaviour methods: publishing a video, adding a comment, counting a view,
liking, disliking and editing a comment. Every entity is kept by a repository, and there are two
interchangeable backends:

- **In memory.** One dictionary per entity, keyed by id. It checks nothing beyond the key.
- **Persistent.** An Entity Framework Core context over SQLite. Its model builder declares
  primary keys, unique indexes on username and email, required columns with maximum lengths,
  foreign keys (cascading from account to video and from video to comment, restricting from
  author to comment) and two seed accounts.

The files follow the program's structure:

- `common.dfy` holds ids, the exceptions, C# 32-bit `int` counters and the text predicates
  (white space, lower-casing).
- `queries.dfy` holds the LINQ operators the repositories use: an unordered scan of a dictionary
  or table, `Where`, `FirstOrDefault`, a stable `OrderByDescending`/`ThenByDescending`, and
  `Take`.
- `models.dfy` holds the three entity classes, their methods and their row values.
- `schema.dfy` holds the relational store and its rules. Every insert, update and delete either
  keeps all rules or is rejected whole.
- `in_memory.dfy` and `persistent.dfy` hold the two backends' repositories. Each repository is a
  class whose methods update its dictionary, or the shared database context, in place.
- `backends.dfy` puts the two backends side by side. It covers where they answer differently
  (the order of a full listing, ties in the most viewed, a negative limit, duplicate usernames,
  updates, deletes that leave references dangling) and the
  cascade guarantee that a deleted video's comments are gone.

Timestamps are `DateTime` ticks (`int`). The clock (`DateTime.UtcNow`) is a `now` parameter.
`Guid.NewGuid()` is a choice of any non-empty id not yet stored.

Where the storage rules, the lookups and the two backends disagree, the model follows what the
code does:

- **Username uniqueness compares exactly.** The unique index on `Username` uses SQLite's default
  exact comparison, while `GetByUsername` ignores case. So "Bob" and "bob" can both be saved
  (`Backends.CaseVariantUsernamesCoexist`), although both `GetByUsername` methods, and the
  account controller's duplicate check before creating an account, compare ignoring case.
- **The in-memory backend enforces no rules.** It checks no uniqueness, no foreign key and no
  restrict; it does not cascade; it keeps no order among equal view counts.
- **An account with any authored comment cannot be deleted.** This includes comments on the
  account's own videos, because SQLite checks the restrict rule as soon as the account row goes.
- **A negative limit lists every video in the persistent backend.** There `Take(limit)` runs as
  SQLite's `LIMIT`, which sets no limit when negative, so `GetMostViewed(-1)` returns every video,
  ranked. In memory, LINQ's `Take` returns nothing (`Backends.NegativeLimitDivergence`).
- **A rejected update escapes as the storage error itself.** The persistent `Update` methods catch
  only `DbUpdateConcurrencyException`, so a constraint failure there reaches the caller as
  `DbUpdate`. A rejected `Save` or `Delete` is wrapped as `InvalidOperation`.

## Model

| member | source | states |
|---|---|---|
| Common.Inc32 | Models/Video.cs:40-43 | `x++` on a C# `int` is two's-complement addition modulo 2^32: x + 1 brought back into the range int.MinValue to int.MaxValue |
| Common.IncrementAddsOne | Models/Video.cs:40-43 | `x++` on a C# `int` adds one below int.MaxValue and wraps to int.MinValue at it; it goes down exactly at the wrap |
| Common.IncTimesAdds | Models/Comment.cs:22-30 | `n` successive increments add exactly `n` while the counter stays within int range |
| Common.IncTimesMonotone | Models/Comment.cs:22-30 | a like, dislike or view counter never decreases as long as it stays below int.MaxValue |
| Common.ToLower | Repositories/PersistentAccountRepository.cs:62-68 | lower-casing keeps the length and lower-cases each character |
| Common.IsWhiteSpace | Models/Comment.cs:32-35 | among the ASCII characters, white space is the space and TAB through CR; no letter or digit is white space |
| Common.IsNullOrWhiteSpace | Models/Video.cs:22-25 | a string is blank exactly when trimming its leading white space leaves nothing |
| Common.TrimStartEmpty | Models/Comment.cs:32-35 | trimming the leading white space leaves nothing exactly when every character is white space |
| Common.EqualsIgnoreCase | Repositories/inMemoryAccountRepository.cs:30-34 | two strings are equal ignoring case exactly when they have the same length and agree character by character once lower-cased |
| Common.FreshIdExists | Repositories/inMemoryAccountRepository.cs:12-15 | a new non-empty id that no stored entity uses can always be drawn |
| Models.EditIdempotent | Models/Comment.cs:32-39 | editing twice with the same text leaves the same state as editing once |
| Models.EditKeepsCountersAndLinks | Models/Comment.cs:32-39 | an edit changes only the text and the edited flag; blank text changes nothing |
| Models.AfterEdit | Models/Comment.cs:32-39 | an edit never turns a non-blank text blank; afterwards the comment is marked edited exactly when it already was or the new text is not blank |
| Models.Comment.constructor | Models/Comment.cs:4-20 | a new comment has its id, text, video and author, is created now, has no likes or dislikes and is not edited |
| Models.Comment.AddLike | Models/Comment.cs:22-25 | likes go up by one, wrapping at int.MaxValue; nothing else changes |
| Models.Comment.AddDislike | Models/Comment.cs:27-30 | dislikes go up by one, wrapping at int.MaxValue; nothing else changes |
| Models.Comment.Edit | Models/Comment.cs:32-39 | blank text throws ArgumentException and changes nothing; otherwise the text is replaced and the comment marked edited |
| Models.Video.constructor | Models/Video.cs:4-20 | a new video has no description, no views and no comments, and is published now |
| Models.Video.IncrementView | Models/Video.cs:40-43 | views go up by one, wrapping at int.MaxValue; nothing else changes |
| Models.Video.AddComment | Models/Video.cs:22-38 | blank text throws and changes nothing; otherwise one fresh comment, with a new id and this video and author, is appended to both the video's and the author's lists |
| Models.Account.constructor | Models/Account.cs:3-15 | a new account has the empty id, is created now and has no videos or comments |
| Models.Account.PublishVideo | Models/Account.cs:17-28 | one fresh video, with a new id, this account as owner and the given title and description, is appended to the account's videos |
| Queries.Scan | Repositories/inMemoryAccountRepository.cs:20-23 | a dictionary's values hold every stored value, as many entries as keys, each once when keys name their rows |
| Queries.Where | Repositories/inMemoryVideoRepository.cs:30-35 | `Where` keeps exactly the elements that satisfy the predicate and never adds an occurrence |
| Queries.WhereCounts | Repositories/inMemoryVideoRepository.cs:30-35 | every occurrence of a matching element is kept and every occurrence of another is dropped |
| Queries.WhereAppend | Repositories/inMemoryCommentRepository.cs:29-34 | filtering keeps the input order: filtering a concatenation concatenates the filtered parts |
| Queries.WhereNoDuplicates | Repositories/inMemoryCommentRepository.cs:29-34 | filtering a sequence without repetitions gives one without repetitions |
| Queries.FirstOrDefault | Repositories/inMemoryAccountRepository.cs:30-34 | null exactly when no element matches; otherwise the first match: it matches and no element before it does |
| Queries.Take | Repositories/inMemoryVideoRepository.cs:37-42 | `Take(limit)` is the prefix of length `limit`, capped by the length; empty for a limit below one |
| Queries.Limit | Repositories/PersistentVideoRepository.cs:81-90 | SQLite's `LIMIT`: the first `limit` rows, or all of them when the limit is negative or at least their number |
| Queries.SortDescending | Repositories/inMemoryVideoRepository.cs:37-42 | the result is ordered largest key first and is a permutation of the input |
| Queries.SortKeepsElements | Repositories/PersistentVideoRepository.cs:52-60 | sorting keeps the length and the elements, and adds no repetition |
| Queries.TakeOfSortedIsTop | Repositories/PersistentVideoRepository.cs:81-90 | the first `limit` of a sorted sequence rank at or above every element left out |
| Queries.SortOfSortedIsSame | Repositories/PersistentVideoRepository.cs:52-60 | sorting a sequence already ordered by the key returns it unchanged |
| Queries.SortTiesKeepOrder | Repositories/inMemoryVideoRepository.cs:37-42 | the sort is stable: elements whose keys all tie keep their input order |
| Queries.SameElementsSameMultiset | Repositories/PersistentVideoRepository.cs:81-90 | two sequences without repetitions that hold the same elements are permutations of each other |
| Queries.SortedUnique | Repositories/PersistentVideoRepository.cs:86-87 | with distinct keys, a permutation has exactly one descending order |
| Queries.Select | Repositories/inMemoryCommentRepository.cs:29-34 | a filtered, ordered query holds exactly the stored values that match, ordered by the key, each once when keys name their rows |
| Queries.Sorted | Repositories/PersistentCommentRepository.cs:60-68 | an ordered listing holds every stored value, as many entries as rows, ordered by the key |
| Queries.Top | Repositories/inMemoryVideoRepository.cs:37-42 | LINQ `OrderByDescending` then `Take`: length min(limit, rows), or zero for a limit below one; ordered, and ranking at or above every stored value left out |
| Queries.SqlTop | Repositories/PersistentVideoRepository.cs:81-90 | the same ranking run with SQLite's `LIMIT`: for a limit of zero or more it equals `Top`; for a negative limit it lists every stored value, ranked |
| Queries.StrictlyDescending | Repositories/PersistentVideoRepository.cs:86-87 | neighbours with strictly decreasing keys make an ordered sequence with distinct keys and no repetitions |
| Queries.TopIsDetermined | Repositories/PersistentVideoRepository.cs:81-90 | when no two stored values share a key, any ordered listing of the stored values starts with the top `limit` |
| Queries.TopIgnoresScanOrder | Repositories/PersistentVideoRepository.cs:81-90 | when no two stored values share a key, the top `limit` is the same along every enumeration of the table |
| Queries.SqlTopIgnoresScanOrder | Repositories/PersistentVideoRepository.cs:81-90 | when no two stored values share a key, the ranking with SQLite's `LIMIT` is the same along every enumeration of the table, for every limit |
| Queries.SortedIgnoresScanOrder | Repositories/PersistentVideoRepository.cs:52-60 | when no two stored values share a key, the full ordered listing is the same along every enumeration of the table |
| Schema.Valid | Data/YoutubeDbContext.cs:51-97 | the store invariant, every rule the model builder declares; under it every comment's video exists and belongs to a stored account |
| Schema.InsertAccount | Data/YoutubeDbContext.cs:25-48 | an accepted account insert adds exactly one row, under an id not yet used, and keeps every row there was; the other tables stay |
| Schema.InsertVideo | Data/YoutubeDbContext.cs:64-98 | an accepted video insert adds exactly one row, under an id not yet used, and keeps every row there was; the other tables stay |
| Schema.InsertComment | Data/YoutubeDbContext.cs:101-130 | an accepted comment insert adds exactly one row, under an id not yet used, and keeps every row there was; the other tables stay |
| Schema.UpdateAccount | Data/YoutubeDbContext.cs:25-48 | an accepted account update replaces exactly that row; every other row and table stays |
| Schema.UpdateVideo | Data/YoutubeDbContext.cs:64-98 | an accepted video update replaces exactly that row; every other row and table stays |
| Schema.UpdateComment | Data/YoutubeDbContext.cs:101-130 | an accepted comment update replaces exactly that row; every other row and table stays |
| Schema.KeyedRowsDistinct | Data/YoutubeDbContext.cs:25-28 | rows stored under their own primary key are pairwise distinct in every table |
| Schema.InsertAccountKeepsValid | Data/YoutubeDbContext.cs:25-48 | an account insert is rejected exactly for a taken id, username or email, or an overlong column; an accepted one keeps every rule |
| Schema.InsertVideoKeepsValid | Data/YoutubeDbContext.cs:51-75 | a video insert is rejected exactly for a taken id, a missing account or an overlong column; an accepted one keeps every rule |
| Schema.InsertCommentKeepsValid | Data/YoutubeDbContext.cs:94-109 | a comment insert is rejected exactly for a taken id, a missing video or author, or an overlong text; an accepted one keeps every rule and touches no other table |
| Schema.UpdateAccountKeepsValid | Data/YoutubeDbContext.cs:31-48 | an account update is rejected exactly when another account holds the new username or email, or a column is overlong; an accepted one keeps every rule |
| Schema.UpdateVideoKeepsValid | Data/YoutubeDbContext.cs:70-75 | a video update is rejected exactly for an overlong title or description; an accepted one keeps every rule |
| Schema.UpdateCommentKeepsValid | Data/YoutubeDbContext.cs:107-109 | a comment update is rejected exactly for an overlong text; an accepted one keeps every rule |
| Schema.SubStoreKeepsRowRules | Data/YoutubeDbContext.cs:25-48 | removing rows from a valid store keeps the key, uniqueness and column rules |
| Schema.DeleteAccount | Data/YoutubeDbContext.cs:51-60 | refused exactly when the account authored a comment; otherwise it only removes rows, and neither the account nor any video it owned remains |
| Schema.DeleteVideo | Data/YoutubeDbContext.cs:94-97 | it only removes rows; the video and every comment on it are gone and the accounts stay |
| Schema.DeleteComment | Data/YoutubeDbContext.cs:101-130 | it only removes rows; that comment is gone and the accounts and videos stay |
| Schema.DeleteAccountKeepsForeignKeys | Data/YoutubeDbContext.cs:51-60 | an account delete that is not refused, cascading to its videos and their comments, leaves no reference dangling |
| Schema.DeleteAccountKeepsValid | Data/YoutubeDbContext.cs:51-60 | an account delete that is not refused keeps every rule |
| Schema.DeleteAccountCascades | Data/YoutubeDbContext.cs:51-60 | deleting an account is refused exactly when it authored a comment; otherwise exactly it, its videos and their comments go, the rest is untouched and every rule holds |
| Schema.DeleteVideoKeepsForeignKeys | Data/YoutubeDbContext.cs:94-97 | a video delete, cascading to its comments, leaves no reference dangling |
| Schema.DeleteVideoCascades | Data/YoutubeDbContext.cs:94-97 | deleting a video removes exactly it and its comments, the rest is untouched and every rule holds |
| Schema.DeleteCommentKeepsValid | Data/YoutubeDbContext.cs:101-130 | deleting a comment removes only that comment and every rule holds |
| Schema.SeedAccountsDistinct | Data/YoutubeDbContext.cs:137-157 | the two seed accounts have distinct ids, usernames and emails, each stored under its own id |
| Schema.SeedColumnsFit | Data/YoutubeDbContext.cs:137-157 | the seed usernames and emails fit their declared lengths |
| Schema.SeedValid | Data/YoutubeDbContext.cs:137-157 | the seed data (two accounts, no videos, no comments) satisfies every rule |
| Persistent.YouTubeDbContext.constructor | Data/YoutubeDbContext.cs:137-157 | a new database holds the seed data, which satisfies the store invariant |
| Persistent.YouTubeDbContext.Commit | Repositories/PersistentAccountRepository.cs:30-32 | a successful SaveChanges makes the tables the new state in one step |
| Persistent.VideoEdits | Repositories/PersistentVideoRepository.cs:102-106 | a video update copies title, description, duration, views and publication date, and keeps the id and the owning account |
| Persistent.CommentEdits | Repositories/PersistentCommentRepository.cs:110-113 | a comment update copies text, likes, dislikes and the edited flag, and keeps the id, creation time, video and author |
| Persistent.ViewsThenDateOrder | Repositories/PersistentVideoRepository.cs:86-87 | ordering by views then by publication date, both descending, puts more views first and, among equal views, the later video first |
| Persistent.PersistentAccountRepository.constructor | Repositories/PersistentAccountRepository.cs:13-19 | the repository works on the given context |
| Persistent.PersistentAccountRepository.Save | Repositories/PersistentAccountRepository.cs:21-42 | assigns a fresh id when empty; fails with InvalidOperation, changing nothing, exactly when the insert breaks a rule; otherwise the account is stored and found by id |
| Persistent.PersistentAccountRepository.GetAll | Repositories/PersistentAccountRepository.cs:44-50 | every stored account, once each |
| Persistent.PersistentAccountRepository.GetById | Repositories/PersistentAccountRepository.cs:52-60 | the account with that id, or null exactly when none is stored |
| Persistent.PersistentAccountRepository.GetByUsername | Repositories/PersistentAccountRepository.cs:62-68 | null exactly when no stored username equals the one asked for after lower-casing; otherwise the first account, in `GetAll()` order, whose username does |
| Persistent.PersistentAccountRepository.Update | Repositories/PersistentAccountRepository.cs:70-91 | an absent id fails with KeyNotFound; a duplicate username or email, or an overlong column, fails with DbUpdate; either way nothing changes; otherwise the row is replaced and every rule holds |
| Persistent.PersistentAccountRepository.Delete | Repositories/PersistentAccountRepository.cs:93-112 | fails with InvalidOperation, changing nothing, exactly when the stored account authored a comment; otherwise the account, its videos and their comments are gone; an absent id changes nothing |
| Persistent.PersistentVideoRepository.constructor | Repositories/PersistentVideoRepository.cs:13-19 | the repository works on the given context |
| Persistent.PersistentVideoRepository.Save | Repositories/PersistentVideoRepository.cs:21-50 | assigns a fresh id when empty; fails with InvalidOperation, changing nothing, exactly when the insert breaks a rule (taken id, missing account, overlong column); otherwise the video is stored and found by id |
| Persistent.PersistentVideoRepository.GetAll | Repositories/PersistentVideoRepository.cs:52-60 | every stored video once, latest published first |
| Persistent.PersistentVideoRepository.GetById | Repositories/PersistentVideoRepository.cs:62-69 | the video with that id, or null exactly when none is stored |
| Persistent.PersistentVideoRepository.GetByAccountId | Repositories/PersistentVideoRepository.cs:71-79 | exactly the stored videos of that account, once each, latest published first |
| Persistent.PersistentVideoRepository.GetMostViewed | Repositories/PersistentVideoRepository.cs:81-90 | `limit` stored videos, or all of them when the limit is negative (SQLite's `LIMIT`) or at least their number, none for zero; ordered by views then publication date descending, each ranking at or above every video left out |
| Persistent.PersistentVideoRepository.Update | Repositories/PersistentVideoRepository.cs:92-117 | an absent id fails with KeyNotFound; an overlong column fails with DbUpdate; either way nothing changes; otherwise the five editable columns are copied and every rule holds |
| Persistent.PersistentVideoRepository.Delete | Repositories/PersistentVideoRepository.cs:119-137 | the video and its comments are gone and every rule holds; an absent id changes nothing |
| Persistent.PersistentCommentRepository.constructor | Repositories/PersistentCommentRepository.cs:13-19 | the repository works on the given context |
| Persistent.PersistentCommentRepository.Save | Repositories/PersistentCommentRepository.cs:21-58 | assigns a fresh id when empty; fails with InvalidOperation, changing nothing, exactly when the insert breaks a rule (taken id, missing video or author, overlong text); otherwise the comment is stored and found by id |
| Persistent.PersistentCommentRepository.GetAll | Repositories/PersistentCommentRepository.cs:60-68 | every stored comment once, newest first |
| Persistent.PersistentCommentRepository.GetById | Repositories/PersistentCommentRepository.cs:70-77 | the comment with that id, or null exactly when none is stored |
| Persistent.PersistentCommentRepository.GetByVideoId | Repositories/PersistentCommentRepository.cs:79-87 | exactly the stored comments on that video, once each, newest first |
| Persistent.PersistentCommentRepository.GetByAuthorId | Repositories/PersistentCommentRepository.cs:89-98 | exactly the stored comments by that author, once each, newest first |
| Persistent.PersistentCommentRepository.Update | Repositories/PersistentCommentRepository.cs:100-124 | an absent id fails with KeyNotFound; an overlong text fails with DbUpdate; either way nothing changes; otherwise the four editable columns are copied and every rule holds |
| Persistent.PersistentCommentRepository.Delete | Repositories/PersistentCommentRepository.cs:126-144 | only that comment is gone, every rule holds, and it is no longer found |
| InMemory.ViewsOrder | Repositories/inMemoryVideoRepository.cs:37-42 | ordering by the views key is ordering by view count |
| InMemory.InMemoryAccountRepository.constructor | Repositories/inMemoryAccountRepository.cs:6-8 | a new repository is empty |
| InMemory.InMemoryAccountRepository.Save | Repositories/inMemoryAccountRepository.cs:10-18 | assigns a fresh id when empty, then stores the account under its id, replacing any entry there; nothing else changes |
| InMemory.InMemoryAccountRepository.GetAll | Repositories/inMemoryAccountRepository.cs:20-23 | every stored account, once each |
| InMemory.InMemoryAccountRepository.GetById | Repositories/inMemoryAccountRepository.cs:25-28 | the account stored under that id, or null exactly when none is |
| InMemory.InMemoryAccountRepository.GetByUsername | Repositories/inMemoryAccountRepository.cs:30-34 | null exactly when no stored username equals the one asked for ignoring case; otherwise the first account, in `GetAll()` order, whose username does |
| InMemory.InMemoryAccountRepository.Update | Repositories/inMemoryAccountRepository.cs:36-46 | fails with KeyNotFound, changing nothing, exactly when the id is not stored; otherwise the entry is replaced |
| InMemory.InMemoryAccountRepository.Delete | Repositories/inMemoryAccountRepository.cs:48-51 | exactly that entry is removed; every other lookup answers as before |
| InMemory.InMemoryVideoRepository.constructor | Repositories/inMemoryVideoRepository.cs:6-8 | a new repository is empty |
| InMemory.InMemoryVideoRepository.Save | Repositories/inMemoryVideoRepository.cs:10-18 | assigns a fresh id when empty, then stores the video under its id, replacing any entry there; nothing else changes |
| InMemory.InMemoryVideoRepository.GetAll | Repositories/inMemoryVideoRepository.cs:20-23 | every stored video, once each |
| InMemory.InMemoryVideoRepository.GetById | Repositories/inMemoryVideoRepository.cs:25-28 | the video stored under that id, or null exactly when none is |
| InMemory.InMemoryVideoRepository.GetByAccountId | Repositories/inMemoryVideoRepository.cs:30-35 | exactly the stored videos of that account, once each, latest published first |
| InMemory.InMemoryVideoRepository.Owned | Repositories/inMemoryVideoRepository.cs:30-35 | the filtered and ordered listing behind GetByAccountId |
| InMemory.InMemoryVideoRepository.GetMostViewed | Repositories/inMemoryVideoRepository.cs:37-42 | at most `limit` stored videos (none for a limit below one), views non-increasing, each with at least the views of every video left out |
| InMemory.InMemoryVideoRepository.Update | Repositories/inMemoryVideoRepository.cs:44-54 | fails with KeyNotFound, changing nothing, exactly when the id is not stored; otherwise the entry is replaced |
| InMemory.InMemoryVideoRepository.Delete | Repositories/inMemoryVideoRepository.cs:56-59 | exactly that entry is removed; every other lookup answers as before |
| InMemory.InMemoryCommentRepository.constructor | Repositories/inMemoryCommentRepository.cs:5-7 | a new repository is empty |
| InMemory.InMemoryCommentRepository.Save | Repositories/inMemoryCommentRepository.cs:9-17 | assigns a fresh id when empty, then stores the comment under its id, replacing any entry there; nothing else changes |
| InMemory.InMemoryCommentRepository.GetAll | Repositories/inMemoryCommentRepository.cs:19-22 | every stored comment, once each |
| InMemory.InMemoryCommentRepository.GetById | Repositories/inMemoryCommentRepository.cs:24-27 | the comment stored under that id, or null exactly when none is |
| InMemory.InMemoryCommentRepository.GetByVideoId | Repositories/inMemoryCommentRepository.cs:29-34 | exactly the stored comments on that video, once each, newest first |
| InMemory.InMemoryCommentRepository.OnVideo | Repositories/inMemoryCommentRepository.cs:29-34 | the filtered and ordered listing behind GetByVideoId |
| InMemory.InMemoryCommentRepository.GetByAuthorId | Repositories/inMemoryCommentRepository.cs:36-41 | exactly the stored comments by that author, once each, newest first |
| InMemory.InMemoryCommentRepository.ByAuthor | Repositories/inMemoryCommentRepository.cs:36-41 | the filtered and ordered listing behind GetByAuthorId |
| InMemory.InMemoryCommentRepository.Update | Repositories/inMemoryCommentRepository.cs:43-53 | fails with KeyNotFound, changing nothing, exactly when the id is not stored; otherwise the entry is replaced |
| InMemory.InMemoryCommentRepository.Delete | Repositories/inMemoryCommentRepository.cs:55-58 | exactly that entry is removed; every other lookup answers as before |
| Backends.InMemoryTiesFollowDictionaryOrder | Repositories/inMemoryVideoRepository.cs:37-42 | in memory, when all views tie, the most viewed are the first `limit` in dictionary order |
| Backends.VideoListingDivergence | Repositories/PersistentVideoRepository.cs:52-60 | over the same videos, the in-memory listing (inMemoryVideoRepository.cs:20-23) and the persistent one hold the same videos, and they are equal only if the in-memory one is ordered latest published first; when no two videos share a publication time, the persistent listing is the in-memory one sorted, whatever order the dictionary keeps, and equals it when that order is already sorted |
| Backends.CommentListingDivergence | Repositories/PersistentCommentRepository.cs:60-68 | over the same comments, the in-memory listing (inMemoryCommentRepository.cs:19-22) and the persistent one hold the same comments, and they are equal only if the in-memory one is ordered newest first; when no two comments share a creation time, the persistent listing is the in-memory one sorted, whatever order the dictionary keeps, and equals it when that order is already sorted |
| Backends.NegativeLimitDivergence | Repositories/PersistentVideoRepository.cs:81-90 | for a negative limit the in-memory most viewed are empty, while the persistent most viewed list every stored video |
| Backends.PersistentMostViewedIgnoresScanOrder | Repositories/PersistentVideoRepository.cs:81-90 | the persistent most viewed do not depend on the order the table is scanned in, as long as no two videos share views and publication date |
| Backends.PersistentTieGoesToLaterVideo | Repositories/PersistentVideoRepository.cs:86-87 | of two videos with equal views, the persistent backend ranks the later published first |
| Backends.ClipStoreRanking | Repositories/PersistentVideoRepository.cs:86-87 | no two example videos share both views and publication date, and ordered by views then publication date they are the later 30-view video, the earlier one, then 10, 5 and 0 views |
| Backends.PersistentTopThreeExample | Repositories/PersistentVideoRepository.cs:81-90 | GetMostViewed(3) over the example returns the later 30-view video, the earlier one, then the 10-view video |
| Backends.DuplicateUsernameDivergence | Data/YoutubeDbContext.cs:43-44 | the persistent store rejects a second account with a taken username, while after two in-memory saves both accounts are listed and a lookup by that username finds one |
| Backends.CaseVariantUsernamesCoexist | Data/YoutubeDbContext.cs:43-44 | "Bob" and "bob" can both be stored, although they are equal ignoring case |
| Backends.CommentUpdateDivergence | Repositories/PersistentCommentRepository.cs:100-124 | from the same comments, the in-memory update stores the caller's comment whole and the persistent one only its text, counters and flag; the two agree exactly when the caller keeps the creation time, video and author |
| Backends.VideoUpdateDivergence | Repositories/PersistentVideoRepository.cs:92-117 | from the same videos, the in-memory update stores the caller's video whole and the persistent one all but its owner; the two agree exactly when the caller keeps the owner |
| Backends.InMemoryAccountDeleteLeavesDanglingReferences | Repositories/inMemoryAccountRepository.cs:48-51 | removing only the account breaks a reference exactly when it owned a video or authored a comment; the persistent delete refuses the latter and cascades the former |
| Backends.InMemoryVideoDeleteLeavesDanglingReferences | Repositories/inMemoryVideoRepository.cs:56-59 | removing only the video breaks a reference exactly when it had a comment; the persistent delete keeps every rule |
| Backends.DeletedVideoHasNoComments | Repositories/PersistentVideoRepository.cs:119-137 | after a persistent video delete, no comment on it is found, neither by video nor by id |

## Left out

- Object identity and aliasing. Repositories store row values. The C# dictionary holds references
  to the caller's objects, so a caller mutating a saved entity changes the stored one; the model
  does not capture that.
- Entity Framework change tracking and navigation loading. `Include`/`ThenInclude` fill related
  collections on read; the model returns rows whose relations are ids.
- Graph inserts. When a new row refers to a related entity that is not stored yet (a video's
  account, a comment's video or author), the program inserts that entity along with the new row
  and the save succeeds. The model takes relations as ids, so it rejects such a save with
  InvalidOperation instead.
- Persistent.PersistentAccountRepository.Save: inserts the account row only, where the program also
  inserts any unsaved videos and comments already in the account's lists.
- Persistent.PersistentVideoRepository.Save: rejects a video whose account is not stored yet, where
  the program would insert that account along with it.
- Persistent.PersistentCommentRepository.Save: rejects a comment whose video or author is not
  stored yet, where the program would insert them along with it.
- Tracked-but-unsaved state. After a failed `SaveChanges`, the rejected entity stays tracked by the
  context. The model rolls back the whole change.
- Logging, concurrency, and `DbUpdateConcurrencyException` (there is no concurrent writer).
- Unicode case folding. Lower-casing covers the ASCII letters only. `ToLower` and
  `OrdinalIgnoreCase` agree there.
- Maximum column lengths. SQLite does not enforce `HasMaxLength`; the model treats the declared
  lengths as store rules.
- Null strings and required members. Strings are never null. A description is `Option<string>`.
- Column defaults (`HasDefaultValue` on views, likes, dislikes and the edited flag). They are never
  observable: every insert writes these columns from the entity, whose constructor already sets
  the same zero and false values.
- The HTTP controllers, `Program.cs` and the repository interfaces are not part of this model.
- Common.IncTimesMonotone: holds only while the counter stays below int.MaxValue, because past it
  the counter wraps.
- InMemory.InMemoryVideoRepository.GetMostViewed: among equal views, the order is the dictionary's
  enumeration order. That order is a fixed but unspecified choice, so the contract gives no order
  there; `Backends.InMemoryTiesFollowDictionaryOrder` states it for the all-ties case.
- Queries.Scan: the enumeration order of a dictionary or of an unordered table scan is left
  unspecified. The model fixes one order per set of contents and lets the dictionary and the table
  scan share it, whereas a real `Dictionary`'s order also depends on the history of inserts and
  removals, and SQLite's scan order is unrelated to it. No statement relies on that sharing: what
  is stated holds for every order, or, where it compares orders, whenever no two rows share the
  sort key.
- Backends.VideoListingDivergence, Backends.CommentListingDivergence: SQL's `ORDER BY` leaves the
  order of rows with equal dates open, so where two rows tie only the shared contents and "equal
  listings are sorted" are stated, not which of the two orders the persistent listing takes.
- Queries.SortTiesKeepOrder: states stability for the case where all keys tie, not for a general
  mix of tied and distinct keys.
