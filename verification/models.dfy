/**
 * The three entities. Each is a class whose behaviour methods update its fields in place, as the
 * C# record classes do; each also has a row value (`Row()`), the scalar state a repository stores.
 * Entities name each other by id: a video names its account, a comment its video and its author.
 * The `videos` and `comments` lists hold the objects themselves, as the C# lists do.
 */
module Models {
  import opened Common
  import opened Queries

  /** The stored state of an account. */
  datatype AccountRow = AccountRow(id: Id, username: string, email: string, createdAt: int)

  /** The stored state of a video; `description` is a nullable string. */
  datatype VideoRow = VideoRow(
    id: Id, title: string, description: Option<string>, durationInSeconds: int32,
    views: int32, publishedAt: int, accountId: Id)

  /** The stored state of a comment. */
  datatype CommentRow = CommentRow(
    id: Id, text: string, createdAt: int, likes: int32, dislikes: int32,
    videoId: Id, authorId: Id, isEdited: bool)

  /** OrderByDescending(v => v.PublishedAt). */
  function ByPublishedAt(v: VideoRow): SortKey {
    SortKey(v.publishedAt, 0)
  }

  /** OrderByDescending(v => v.Views). */
  function ByViews(v: VideoRow): SortKey {
    SortKey(v.views as int, 0)
  }

  /** OrderByDescending(v => v.Views).ThenByDescending(v => v.PublishedAt). */
  function ByViewsThenPublishedAt(v: VideoRow): SortKey {
    SortKey(v.views as int, v.publishedAt)
  }

  /** `v` ranks at or above `w` among the most viewed: more views, or as many and published no earlier. */
  predicate MoreViewed(v: VideoRow, w: VideoRow) {
    v.views > w.views || (v.views == w.views && v.publishedAt >= w.publishedAt)
  }

  /** OrderByDescending(c => c.CreatedAt). */
  function ByCreatedAt(c: CommentRow): SortKey {
    SortKey(c.createdAt, 0)
  }

  /** The state `Comment.Edit(newText)` leaves behind: blank text changes nothing. */
  function AfterEdit(c: CommentRow, newText: string): (r: CommentRow)
    ensures !IsNullOrWhiteSpace(c.text) ==> !IsNullOrWhiteSpace(r.text)
    ensures r.isEdited <==> c.isEdited || !IsNullOrWhiteSpace(newText)
  {
    if IsNullOrWhiteSpace(newText) then c else c.(text := newText, isEdited := true)
  }

  /** Editing twice with the same text leaves the same state as editing once. */
  lemma EditIdempotent(c: CommentRow, newText: string)
    ensures AfterEdit(AfterEdit(c, newText), newText) == AfterEdit(c, newText)
  {
  }

  /** An edit touches only the text and the edited flag. */
  lemma EditKeepsCountersAndLinks(c: CommentRow, newText: string)
    ensures var e := AfterEdit(c, newText);
      e.id == c.id && e.createdAt == c.createdAt && e.likes == c.likes && e.dislikes == c.dislikes
      && e.videoId == c.videoId && e.authorId == c.authorId
    ensures !IsNullOrWhiteSpace(newText) ==> AfterEdit(c, newText).text == newText && AfterEdit(c, newText).isEdited
    ensures IsNullOrWhiteSpace(newText) ==> AfterEdit(c, newText) == c
  {
  }

  class Comment {
    var id: Id
    var text: string
    var createdAt: int
    var likes: int32
    var dislikes: int32
    var videoId: Id
    var authorId: Id
    var isEdited: bool

    function Row(): CommentRow
      reads this
    {
      CommentRow(id, text, createdAt, likes, dislikes, videoId, authorId, isEdited)
    }

    /** `new Comment { Id, Text, Video, Author }`: created now, no likes or dislikes, not edited. */
    constructor (id: Id, text: string, videoId: Id, authorId: Id, now: int)
      ensures Row() == CommentRow(id, text, now, 0, 0, videoId, authorId, false)
    {
      this.id := id;
      this.text := text;
      this.createdAt := now;
      this.likes := 0;
      this.dislikes := 0;
      this.videoId := videoId;
      this.authorId := authorId;
      this.isEdited := false;
    }

    /** `Likes++`. */
    method AddLike()
      modifies this
      ensures likes == Inc32(old(likes))
      ensures old(likes) as int < MaxInt32 ==> likes as int == old(likes) as int + 1
      ensures old(likes) as int == MaxInt32 ==> likes as int == MinInt32
      ensures Row() == old(Row()).(likes := likes)
    {
      likes := Inc32(likes);
    }

    /** `Dislikes++`. */
    method AddDislike()
      modifies this
      ensures dislikes == Inc32(old(dislikes))
      ensures old(dislikes) as int < MaxInt32 ==> dislikes as int == old(dislikes) as int + 1
      ensures old(dislikes) as int == MaxInt32 ==> dislikes as int == MinInt32
      ensures Row() == old(Row()).(dislikes := dislikes)
    {
      dislikes := Inc32(dislikes);
    }

    /** Replaces the text and marks the comment edited; blank text throws and changes nothing. */
    method Edit(newText: string) returns (r: Outcome)
      modifies this
      ensures r.Fail? <==> IsNullOrWhiteSpace(newText)
      ensures r.Fail? ==> r.error == Argument && Row() == old(Row())
      ensures r.Done? ==> text == newText && isEdited
      ensures Row() == AfterEdit(old(Row()), newText)
    {
      if IsNullOrWhiteSpace(newText) {
        return Fail(Argument);
      }
      text := newText;
      isEdited := true;
      r := Done;
    }
  }

  class Video {
    var id: Id
    var title: string
    var description: Option<string>
    var durationInSeconds: int32
    var views: int32
    var publishedAt: int
    var accountId: Id
    var comments: seq<Comment>

    function Row(): VideoRow
      reads this
    {
      VideoRow(id, title, description, durationInSeconds, views, publishedAt, accountId)
    }

    /** `new Video { Id, Title, Account }`: no description, no views, published now, no comments. */
    constructor (id: Id, title: string, accountId: Id, now: int)
      ensures Row() == VideoRow(id, title, None, 0, 0, now, accountId)
      ensures comments == []
    {
      this.id := id;
      this.title := title;
      this.description := None;
      this.durationInSeconds := 0;
      this.views := 0;
      this.publishedAt := now;
      this.accountId := accountId;
      this.comments := [];
    }

    /** `Views++`. */
    method IncrementView()
      modifies this
      ensures views == Inc32(old(views))
      ensures old(views) as int < MaxInt32 ==> views as int == old(views) as int + 1
      ensures old(views) as int == MaxInt32 ==> views as int == MinInt32
      ensures Row() == old(Row()).(views := views)
      ensures comments == old(comments)
    {
      views := Inc32(views);
    }

    /**
     * Creates a comment by `author` on this video with a new id, created `now`, and appends it to
     * both this video's and the author's comment lists; blank text throws and changes nothing.
     */
    method AddComment(author: Account, text: string, now: int) returns (r: Outcome)
      modifies this, author
      ensures r.Fail? <==> IsNullOrWhiteSpace(text)
      ensures r.Fail? ==> r.error == Argument
      ensures r.Fail? ==> comments == old(comments) && author.comments == old(author.comments)
      ensures r.Done? ==> |comments| == |old(comments)| + 1
      ensures r.Done? ==> comments == old(comments) + [comments[|comments| - 1]]
      ensures r.Done? ==> author.comments == old(author.comments) + [comments[|comments| - 1]]
      ensures r.Done? ==> fresh(comments[|comments| - 1])
      ensures r.Done? ==> var c := comments[|comments| - 1];
        c.id != Empty && c.Row() == CommentRow(c.id, text, now, 0, 0, id, author.id, false)
      ensures Row() == old(Row())
      ensures author.Row() == old(author.Row()) && author.videos == old(author.videos)
    {
      if IsNullOrWhiteSpace(text) {
        return Fail(Argument);
      }
      assert Guid(0) != Empty;
      var commentId: Id :| commentId != Empty;
      var c := new Comment(commentId, text, id, author.id, now);
      comments := comments + [c];
      author.comments := author.comments + [c];
      r := Done;
    }
  }

  class Account {
    var id: Id
    var username: string
    var email: string
    var createdAt: int
    var videos: seq<Video>
    var comments: seq<Comment>

    function Row(): AccountRow
      reads this
    {
      AccountRow(id, username, email, createdAt)
    }

    /** `new Account { Username, Email }`: no id yet, created now, no videos, no comments. */
    constructor (username: string, email: string, now: int)
      ensures Row() == AccountRow(Empty, username, email, now)
      ensures videos == [] && comments == []
    {
      this.id := Empty;
      this.username := username;
      this.email := email;
      this.createdAt := now;
      this.videos := [];
      this.comments := [];
    }

    /**
     * Creates a video owned by this account with a new id, the given title and description,
     * published `now`, and appends it to this account's videos.
     */
    method PublishVideo(title: string, now: int, description: string := "")
      modifies this
      ensures |videos| == |old(videos)| + 1
      ensures videos == old(videos) + [videos[|videos| - 1]]
      ensures fresh(videos[|videos| - 1])
      ensures var v := videos[|videos| - 1];
        v.id != Empty && v.Row() == VideoRow(v.id, title, Some(description), 0, 0, now, id)
        && v.comments == []
      ensures Row() == old(Row()) && comments == old(comments)
    {
      assert Guid(0) != Empty;
      var videoId: Id :| videoId != Empty;
      var v := new Video(videoId, title, id, now);
      v.description := Some(description);
      videos := videos + [v];
    }
  }
}
