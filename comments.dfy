/** The Comment table as its migration declares it: which fields have
    defaults, which are filled in by the store, and what happens to a
    comment when the row it refers to is deleted (`post` is set to null,
    `author` cascades). */
module CommentSchema {
  import opened Base
  import opened Schema

  /** `is_published` defaults to true. */
  const DefaultIsPublished: bool := true

  /** What a submitter supplies for a new comment. A missing `pubDate`
      stays missing: the column has no default. */
  datatype CommentForm = CommentForm(text: string, pubDate: Option<Time>, isPublished: Option<bool>)

  /** The row stored for a submission, or None when it cannot be stored
      because `pub_date` is missing. `created_at` is stamped with `now`;
      `author` and `post` are whatever the caller forces them to be. */
  function NewComment(id: CommentId, form: CommentForm, author: UserId, post: PostId, now: Time): (r: Option<Comment>)
    ensures r.None? <==> form.pubDate.None?
    ensures r.Some? ==> r.value.id == id && r.value.text == form.text && r.value.pubDate == form.pubDate.value
    ensures r.Some? ==> r.value.createdAt == now
    ensures r.Some? ==> r.value.author == author && r.value.post == Some(post)
    ensures r.Some? && form.isPublished.None? ==> r.value.isPublished
    ensures r.Some? && form.isPublished.Some? ==> r.value.isPublished == form.isPublished.value
  {
    match form.pubDate
    case None => None
    case Some(date) =>
      var published := match form.isPublished
        case None => DefaultIsPublished
        case Some(b) => b;
      Some(Comment(id, form.text, date, published, now, author, Some(post)))
  }

  /** The row saved when comment `c` is edited with `form`, or None when it
      cannot be saved because `pub_date` is missing. The submitted text and
      date replace the old ones, and so does `isPublished` when supplied (an
      omitted flag keeps the stored one); the key, the author, the post
      link and the creation time never change. */
  function EditedComment(c: Comment, form: CommentForm): (r: Option<Comment>)
    ensures r.None? <==> form.pubDate.None?
    ensures r.Some? ==> r.value.id == c.id && r.value.author == c.author && r.value.post == c.post
    ensures r.Some? ==> r.value.createdAt == c.createdAt
    ensures r.Some? ==> r.value.text == form.text && r.value.pubDate == form.pubDate.value
    ensures r.Some? && form.isPublished.None? ==> r.value.isPublished == c.isPublished
    ensures r.Some? && form.isPublished.Some? ==> r.value.isPublished == form.isPublished.value
  {
    match form.pubDate
    case None => None
    case Some(date) =>
      var published := match form.isPublished
        case None => c.isPublished
        case Some(b) => b;
      Some(c.(text := form.text, pubDate := date, isPublished := published))
  }

  // ---------------------------------------------------------------------
  // on_delete=SET_NULL for `post`

  /** One comment after the posts in `gone` are deleted. */
  function DetachComment(c: Comment, gone: set<PostId>): (r: Comment) {
    if c.post.Some? && c.post.value in gone then c.(post := None) else c
  }

  /** The comment table after the posts in `gone` are deleted: every comment
      stays, in place; a comment that pointed at a deleted post now points
      at nothing, and nothing else about any comment changes. */
  function Detach(comments: seq<Comment>, gone: set<PostId>): (r: seq<Comment>)
    ensures |r| == |comments|
    ensures forall i :: 0 <= i < |r| ==> r[i].(post := comments[i].post) == comments[i]
    ensures forall i :: 0 <= i < |r| ==>
      r[i].post == if comments[i].post.Some? && comments[i].post.value in gone then None else comments[i].post
  {
    if comments == [] then []
    else [DetachComment(comments[0], gone)] + Detach(comments[1..], gone)
  }

  /** After the deletion no comment refers to a deleted post. */
  lemma DetachLeavesNoReference(comments: seq<Comment>, gone: set<PostId>)
    ensures forall c :: c in Detach(comments, gone) ==> c.post.None? || c.post.value !in gone
  {
    var r := Detach(comments, gone);
    forall c | c in r
      ensures c.post.None? || c.post.value !in gone
    {
      var i :| 0 <= i < |r| && r[i] == c;
    }
  }

  // ---------------------------------------------------------------------
  // on_delete=CASCADE for `author`

  function NotBy(uid: UserId): Comment -> bool {
    (c: Comment) => c.author != uid
  }

  /** The comment table after user `uid` is deleted: exactly the comments
      that user wrote are gone, in the order they were. */
  function CascadeAuthor(comments: seq<Comment>, uid: UserId): (r: seq<Comment>)
    ensures forall c :: c in r <==> c in comments && c.author != uid
    ensures |r| == |comments| - AuthoredCount(comments, uid)
  {
    CascadeAuthorCount(comments, uid);
    Filter(comments, NotBy(uid))
  }

  /** How many comments `uid` wrote. */
  function AuthoredCount(comments: seq<Comment>, uid: UserId): (n: nat) {
    if comments == [] then 0
    else (if comments[0].author == uid then 1 else 0) + AuthoredCount(comments[1..], uid)
  }

  lemma {:induction false} CascadeAuthorCount(comments: seq<Comment>, uid: UserId)
    ensures |Filter(comments, NotBy(uid))| + AuthoredCount(comments, uid) == |comments|
  {
    if comments != [] {
      CascadeAuthorCount(comments[1..], uid);
    }
  }
}
