/** The pages that change the store: creating, editing and deleting posts
    and comments, editing one's own profile, and (from the admin side)
    deleting a user. Each page is a method of the store; the acting user is
    `None` for an anonymous request, and the clock is the `now` argument. */
module Store {
  import opened Base
  import opened Schema
  import opened CommentSchema

  datatype Url = ProfileUrl(username: string) | PostDetailUrl(postId: PostId)

  /** What a state-changing page answers. */
  datatype Response =
    | Redirect(to: Url)   // done, or an edit refused by PostUpdateView
    | LoginRedirect       // the anonymous user is sent to log in
    | PermissionDenied    // 403
    | Http404             // the framework's 404
    | FormInvalid         // the form is shown again with its errors

  // ---------------------------------------------------------------------
  // OnlyAuthorMixin

  /** `object.author == request.user`: an anonymous user never passes. */
  predicate PassesOwnership(author: UserId, user: Option<UserId>) {
    user == Some(author)
  }

  /** The framework's reaction to a failed test when a view does not
      override it: log in first if anonymous, else 403. */
  function DefaultDenial(user: Option<UserId>): (r: Response)
    ensures r == LoginRedirect <==> user.None?
    ensures r == PermissionDenied <==> user.Some?
  {
    if user.Some? then PermissionDenied else LoginRedirect
  }

  // ---------------------------------------------------------------------
  // Forms

  /** The post form as submitted; `claimedAuthor` is whatever author the
      client sent, which the store never uses. */
  datatype PostForm = PostForm(
    title: string,
    text: string,
    pubDate: Time,
    isPublished: bool,
    category: Option<CategoryId>,
    location: Option<LocationId>,
    claimedAuthor: Option<UserId>)

  /** The form's own check: a chosen category must exist. */
  predicate PostFormValid(db: Db, form: PostForm) {
    CategoryRefOk(db, form.category)
  }

  /** The post a valid creation form saves: the author is the acting user,
      never the one the form claims. */
  function NewPost(id: PostId, form: PostForm, author: UserId, now: Time): (p: Post)
    ensures p.id == id && p.author == author && p.createdAt == now
    ensures p.title == form.title && p.text == form.text && p.pubDate == form.pubDate
    ensures p.isPublished == form.isPublished && p.category == form.category && p.location == form.location
  {
    Post(id, form.title, form.text, form.pubDate, form.isPublished, now, author, form.category, form.location)
  }

  /** An edit replaces the form's fields and keeps the key, the author and
      the creation time. */
  function EditedPost(p: Post, form: PostForm): (r: Post)
    ensures r.id == p.id && r.author == p.author && r.createdAt == p.createdAt
    ensures r.title == form.title && r.text == form.text && r.pubDate == form.pubDate
    ensures r.isPublished == form.isPublished && r.category == form.category && r.location == form.location
  {
    NewPost(p.id, form, p.author, p.createdAt)
  }

  datatype ProfileForm = ProfileForm(username: string, firstName: string, lastName: string, email: string)

  /** A username is required and must not belong to another user. */
  predicate ProfileFormValid(db: Db, uid: UserId, form: ProfileForm) {
    form.username != [] && forall u :: u in db.users && u.id != uid ==> u.username != form.username
  }

  function PostIndex(posts: seq<Post>, pid: PostId): (r: Option<nat>)
    ensures r.Some? ==> r.value < |posts| && posts[r.value].id == pid
    ensures r.None? <==> !(exists p :: p in posts && p.id == pid)
  {
    FindIndex(posts, (p: Post) => p.id == pid)
  }

  function CommentIndex(comments: seq<Comment>, cid: CommentId): (r: Option<nat>)
    ensures r.Some? ==> r.value < |comments| && comments[r.value].id == cid
    ensures r.None? <==> !(exists c :: c in comments && c.id == cid)
  {
    FindIndex(comments, (c: Comment) => c.id == cid)
  }

  /** The username of an existing user (what `str(request.user)` gives). */
  function UsernameOf(db: Db, uid: UserId): (r: string)
    requires HasUser(db, uid)
  {
    UserById(db, uid).value.username
  }

  /** The ids of the posts written by `uid`. */
  function PostIdsOf(posts: seq<Post>, uid: UserId): (r: set<PostId>) {
    set p | p in posts && p.author == uid :: p.id
  }

  function NotAuthoredBy(uid: UserId): Post -> bool {
    (p: Post) => p.author != uid
  }

  function NotUser(uid: UserId): User -> bool {
    (u: User) => u.id != uid
  }

  // ---------------------------------------------------------------------
  // Each change keeps the store well formed

  lemma AddPostKeepsWellFormed(db: Db, p: Post)
    requires WellFormed(db)
    requires HasUser(db, p.author) && CategoryRefOk(db, p.category)
    requires forall q :: q in db.posts ==> q.id != p.id
    ensures WellFormed(db.(posts := db.posts + [p]))
  {
    var db' := db.(posts := db.posts + [p]);
    AppendDistinct(db.posts, p, PostKey);
    forall c | c in db'.comments
      ensures PostRefOk(db', c.post)
    {
      if c.post.Some? {
        var q :| q in db.posts && q.id == c.post.value;
        assert q in db'.posts;
      }
    }
  }

  lemma EditPostKeepsWellFormed(db: Db, i: nat, p: Post)
    requires WellFormed(db) && i < |db.posts|
    requires p.id == db.posts[i].id && HasUser(db, p.author) && CategoryRefOk(db, p.category)
    ensures WellFormed(db.(posts := db.posts[i := p]))
  {
    var db' := db.(posts := db.posts[i := p]);
    UpdateAtDistinct(db.posts, i, p, PostKey);
    forall q | q in db'.posts
      ensures HasUser(db', q.author) && CategoryRefOk(db', q.category)
    {
      var j :| 0 <= j < |db'.posts| && db'.posts[j] == q;
      if j != i {
        assert q == db.posts[j];
      }
    }
    forall c | c in db'.comments
      ensures PostRefOk(db', c.post)
    {
      if c.post.Some? {
        var j :| 0 <= j < |db.posts| && db.posts[j].id == c.post.value;
        assert db'.posts[j].id == c.post.value;
      }
    }
  }

  /** Deleting a post and nulling its comments' links leaves no dangling
      link. */
  lemma DeletePostKeepsWellFormed(db: Db, i: nat)
    requires WellFormed(db) && i < |db.posts|
    ensures WellFormed(db.(posts := RemoveAt(db.posts, i), comments := Detach(db.comments, {db.posts[i].id})))
  {
    var db' := db.(posts := RemoveAt(db.posts, i), comments := Detach(db.comments, {db.posts[i].id}));
    RemoveAtDistinct(db.posts, i, PostKey);
    DetachKeepsKeysDistinct(db.comments, {db.posts[i].id});
    forall c | c in db'.comments
      ensures HasUser(db', c.author) && PostRefOk(db', c.post)
    {
      DeletePostKeepsCommentRef(db, i, c);
    }
  }

  lemma DetachKeepsKeysDistinct(comments: seq<Comment>, gone: set<PostId>)
    requires DistinctCommentIds(comments)
    ensures DistinctCommentIds(Detach(comments, gone))
  {
    var r := Detach(comments, gone);
    forall a, b | 0 <= a < b < |r|
      ensures CommentKey(r[a]) != CommentKey(r[b])
    {
      assert CommentKey(comments[a]) != CommentKey(comments[b]);
    }
  }

  lemma DeletePostKeepsCommentRef(db: Db, i: nat, c: Comment)
    requires WellFormed(db) && i < |db.posts|
    requires c in Detach(db.comments, {db.posts[i].id})
    ensures var db' := db.(posts := RemoveAt(db.posts, i), comments := Detach(db.comments, {db.posts[i].id}));
      HasUser(db', c.author) && PostRefOk(db', c.post)
  {
    var comments := Detach(db.comments, {db.posts[i].id});
    var k :| 0 <= k < |comments| && comments[k] == c;
    var d := db.comments[k];
    assert d in db.comments;
    assert c == DetachComment(d, {db.posts[i].id});
    DetachedLinkResolves(db.posts, i, d);
  }

  /** A link that survives the deletion of `posts[i]` still names a post. */
  lemma DetachedLinkResolves(posts: seq<Post>, i: nat, d: Comment)
    requires i < |posts|
    requires d.post.Some? ==> exists q :: q in posts && q.id == d.post.value
    ensures var c := DetachComment(d, {posts[i].id});
      c.post.Some? ==> exists q :: q in RemoveAt(posts, i) && q.id == c.post.value
  {
    var c := DetachComment(d, {posts[i].id});
    if c.post.Some? {
      var q :| q in posts && q.id == c.post.value;
      assert q != posts[i];
      assert q in RemoveAt(posts, i);
    }
  }

  lemma AddCommentKeepsWellFormed(db: Db, c: Comment)
    requires WellFormed(db)
    requires HasUser(db, c.author) && PostRefOk(db, c.post)
    requires forall d :: d in db.comments ==> d.id != c.id
    ensures WellFormed(db.(comments := db.comments + [c]))
  {
    AppendDistinct(db.comments, c, CommentKey);
  }

  /** Replacing a comment by one with the same key, author and post link
      keeps the store well formed. */
  lemma EditCommentKeepsWellFormed(db: Db, i: nat, c: Comment)
    requires WellFormed(db) && i < |db.comments|
    requires c.id == db.comments[i].id && c.author == db.comments[i].author && c.post == db.comments[i].post
    ensures WellFormed(db.(comments := db.comments[i := c]))
  {
    var db' := db.(comments := db.comments[i := c]);
    UpdateAtDistinct(db.comments, i, c, CommentKey);
    forall c | c in db'.comments
      ensures HasUser(db', c.author) && PostRefOk(db', c.post)
    {
      var j :| 0 <= j < |db'.comments| && db'.comments[j] == c;
      assert db.comments[j] in db.comments;
    }
  }

  lemma DeleteCommentKeepsWellFormed(db: Db, i: nat)
    requires WellFormed(db) && i < |db.comments|
    ensures WellFormed(db.(comments := RemoveAt(db.comments, i)))
  {
    RemoveAtDistinct(db.comments, i, CommentKey);
  }

  lemma EditUserKeepsWellFormed(db: Db, i: nat, form: ProfileForm)
    requires WellFormed(db) && i < |db.users|
    requires ProfileFormValid(db, db.users[i].id, form)
    ensures WellFormed(db.(users := db.users[i := User(db.users[i].id, form.username, form.firstName, form.lastName, form.email)]))
  {
    var u := User(db.users[i].id, form.username, form.firstName, form.lastName, form.email);
    var db' := db.(users := db.users[i := u]);
    UpdateAtDistinct(db.users, i, u, UserKey);
    forall a, b | 0 <= a < b < |db'.users|
      ensures UserName(db'.users[a]) != UserName(db'.users[b])
    {
      if a != i && b != i {
        assert UserName(db.users[a]) != UserName(db.users[b]);
      } else {
        assert UserKey(db.users[a]) != UserKey(db.users[b]);
        assert db.users[a] in db.users && db.users[b] in db.users;
      }
    }
    forall uid | HasUser(db, uid)
      ensures HasUser(db', uid)
    {
      var j :| 0 <= j < |db.users| && db.users[j].id == uid;
      assert db'.users[j].id == uid;
    }
  }

  /** The store after user `uid` is deleted: the user's posts and comments
      go with it, and other comments on those posts lose their link. */
  function AfterUserDeleted(db: Db, uid: UserId): (r: Db)
  {
    Db(
      Filter(db.users, NotUser(uid)),
      db.categories,
      Filter(db.posts, NotAuthoredBy(uid)),
      Detach(CascadeAuthor(db.comments, uid), PostIdsOf(db.posts, uid)))
  }

  /** A user deletion removes exactly that user, that user's posts and that
      user's comments, and touches no category. */
  lemma AfterUserDeletedRows(db: Db, uid: UserId)
    ensures AfterUserDeleted(db, uid).categories == db.categories
    ensures forall u :: u in AfterUserDeleted(db, uid).users <==> u in db.users && u.id != uid
    ensures forall p :: p in AfterUserDeleted(db, uid).posts <==> p in db.posts && p.author != uid
    ensures |AfterUserDeleted(db, uid).comments| == |db.comments| - AuthoredCount(db.comments, uid)
  {
    var kept := CascadeAuthor(db.comments, uid);
    assert |AfterUserDeleted(db, uid).comments| == |kept|;
  }

  /** Every comment another user wrote survives a user deletion, detached
      from the deleted posts. */
  lemma AfterUserDeletedKeepsOthers(db: Db, uid: UserId, d: Comment)
    requires d in db.comments && d.author != uid
    ensures DetachComment(d, PostIdsOf(db.posts, uid)) in AfterUserDeleted(db, uid).comments
  {
    var kept := CascadeAuthor(db.comments, uid);
    var r := AfterUserDeleted(db, uid).comments;
    var k :| 0 <= k < |kept| && kept[k] == d;
    assert r[k] == DetachComment(d, PostIdsOf(db.posts, uid));
  }

  /** Every comment left after a user deletion is one of the old comments,
      not written by that user, with its link kept unless it pointed at one of
      that user's posts. */
  lemma AfterUserDeletedComments(db: Db, uid: UserId, c: Comment)
    requires c in AfterUserDeleted(db, uid).comments
    ensures exists d :: d in db.comments && d.author != uid && c == DetachComment(d, PostIdsOf(db.posts, uid))
  {
    var kept := CascadeAuthor(db.comments, uid);
    var r := AfterUserDeleted(db, uid).comments;
    var k :| 0 <= k < |r| && r[k] == c;
    assert kept[k] in kept;
    assert c == DetachComment(kept[k], PostIdsOf(db.posts, uid));
  }

  lemma AfterUserDeletedKeepsKeysBelow(db: Db, uid: UserId, nextPost: PostId, nextComment: CommentId)
    requires forall p :: p in db.posts ==> p.id < nextPost
    requires forall c :: c in db.comments ==> c.id < nextComment
    ensures forall p :: p in AfterUserDeleted(db, uid).posts ==> p.id < nextPost
    ensures forall c :: c in AfterUserDeleted(db, uid).comments ==> c.id < nextComment
  {
    forall c | c in AfterUserDeleted(db, uid).comments
      ensures c.id < nextComment
    {
      AfterUserDeletedComments(db, uid, c);
    }
  }

  lemma DeleteUserKeepsValid(db: Db, uid: UserId, nextPost: PostId, nextComment: CommentId)
    requires ValidStore(db, nextPost, nextComment)
    ensures ValidStore(AfterUserDeleted(db, uid), nextPost, nextComment)
  {
    DeleteUserKeepsWellFormed(db, uid);
    AfterUserDeletedKeepsKeysBelow(db, uid, nextPost, nextComment);
  }

  lemma DeleteUserKeepsKeysDistinct(db: Db, uid: UserId)
    requires WellFormed(db)
    ensures DistinctUsers(AfterUserDeleted(db, uid).users)
    ensures DistinctPostIds(AfterUserDeleted(db, uid).posts)
    ensures DistinctCommentIds(AfterUserDeleted(db, uid).comments)
  {
    var kept := CascadeAuthor(db.comments, uid);
    var r := AfterUserDeleted(db, uid).comments;
    FilterDistinct(db.users, NotUser(uid), UserKey);
    FilterDistinct(db.users, NotUser(uid), UserName);
    FilterDistinct(db.posts, NotAuthoredBy(uid), PostKey);
    FilterDistinct(db.comments, NotBy(uid), CommentKey);
    forall a, b | 0 <= a < b < |r|
      ensures CommentKey(r[a]) != CommentKey(r[b])
    {
      assert CommentKey(kept[a]) != CommentKey(kept[b]);
    }
  }

  /** Deleting a user leaves no post or comment pointing at a missing row. */
  lemma DeleteUserKeepsWellFormed(db: Db, uid: UserId)
    requires WellFormed(db)
    ensures WellFormed(AfterUserDeleted(db, uid))
  {
    DeleteUserKeepsKeysDistinct(db, uid);
    DeleteUserKeepsPostRefs(db, uid);
    DeleteUserKeepsCommentRefs(db, uid);
  }

  lemma DeleteUserKeepsPostRefs(db: Db, uid: UserId)
    requires WellFormed(db)
    ensures forall p :: p in AfterUserDeleted(db, uid).posts ==>
      HasUser(AfterUserDeleted(db, uid), p.author) && CategoryRefOk(AfterUserDeleted(db, uid), p.category)
  {
    var db' := AfterUserDeleted(db, uid);
    forall p | p in db'.posts
      ensures HasUser(db', p.author) && CategoryRefOk(db', p.category)
    {
      var u :| u in db.users && u.id == p.author;
      assert u in db'.users;
    }
  }

  lemma DeleteUserKeepsCommentRefs(db: Db, uid: UserId)
    requires WellFormed(db)
    ensures forall c :: c in AfterUserDeleted(db, uid).comments ==>
      HasUser(AfterUserDeleted(db, uid), c.author) && PostRefOk(AfterUserDeleted(db, uid), c.post)
  {
    forall c | c in AfterUserDeleted(db, uid).comments
      ensures HasUser(AfterUserDeleted(db, uid), c.author) && PostRefOk(AfterUserDeleted(db, uid), c.post)
    {
      DeleteUserKeepsCommentRef(db, uid, c);
    }
  }

  lemma DeleteUserKeepsCommentRef(db: Db, uid: UserId, c: Comment)
    requires WellFormed(db) && c in AfterUserDeleted(db, uid).comments
    ensures HasUser(AfterUserDeleted(db, uid), c.author) && PostRefOk(AfterUserDeleted(db, uid), c.post)
  {
    var db' := AfterUserDeleted(db, uid);
    AfterUserDeletedComments(db, uid, c);
    var d :| d in db.comments && d.author != uid && c == DetachComment(d, PostIdsOf(db.posts, uid));
    var u :| u in db.users && u.id == d.author;
    assert u in db'.users;
    if c.post.Some? {
      var q :| q in db.posts && q.id == c.post.value;
      assert q.author != uid;
      assert q in db'.posts;
    }
  }

  // ---------------------------------------------------------------------
  // The store

  /** A well-formed state whose keys all lie below the next values of the
      key counters. */
  predicate ValidStore(db: Db, nextPost: PostId, nextComment: CommentId) {
    && WellFormed(db)
    && (forall p :: p in db.posts ==> p.id < nextPost)
    && (forall c :: c in db.comments ==> c.id < nextComment)
  }

  /** Storing a post under the next post key keeps the store valid and moves
      the counter past it. */
  lemma AddPostKeepsValid(db: Db, nextPost: PostId, nextComment: CommentId, p: Post)
    requires ValidStore(db, nextPost, nextComment)
    requires p.id == nextPost && HasUser(db, p.author) && CategoryRefOk(db, p.category)
    ensures ValidStore(db.(posts := db.posts + [p]), nextPost + 1, nextComment)
  {
    AddPostKeepsWellFormed(db, p);
  }

  lemma EditPostKeepsValid(db: Db, nextPost: PostId, nextComment: CommentId, i: nat, p: Post)
    requires ValidStore(db, nextPost, nextComment) && i < |db.posts|
    requires p.id == db.posts[i].id && HasUser(db, p.author) && CategoryRefOk(db, p.category)
    ensures ValidStore(db.(posts := db.posts[i := p]), nextPost, nextComment)
  {
    EditPostKeepsWellFormed(db, i, p);
    var posts := db.posts[i := p];
    forall q | q in posts
      ensures q.id < nextPost
    {
      var j :| 0 <= j < |posts| && posts[j] == q;
      assert db.posts[j] in db.posts;
    }
  }

  lemma DeletePostKeepsValid(db: Db, nextPost: PostId, nextComment: CommentId, i: nat)
    requires ValidStore(db, nextPost, nextComment) && i < |db.posts|
    ensures ValidStore(db.(posts := RemoveAt(db.posts, i), comments := Detach(db.comments, {db.posts[i].id})), nextPost, nextComment)
  {
    DeletePostKeepsWellFormed(db, i);
    var comments := Detach(db.comments, {db.posts[i].id});
    forall c | c in comments
      ensures c.id < nextComment
    {
      var k :| 0 <= k < |comments| && comments[k] == c;
      assert db.comments[k] in db.comments;
    }
  }

  lemma AddCommentKeepsValid(db: Db, nextPost: PostId, nextComment: CommentId, c: Comment)
    requires ValidStore(db, nextPost, nextComment)
    requires c.id == nextComment && HasUser(db, c.author) && PostRefOk(db, c.post)
    ensures ValidStore(db.(comments := db.comments + [c]), nextPost, nextComment + 1)
  {
    AddCommentKeepsWellFormed(db, c);
  }

  lemma EditCommentKeepsValid(db: Db, nextPost: PostId, nextComment: CommentId, i: nat, c: Comment)
    requires ValidStore(db, nextPost, nextComment) && i < |db.comments|
    requires c.id == db.comments[i].id && c.author == db.comments[i].author && c.post == db.comments[i].post
    ensures ValidStore(db.(comments := db.comments[i := c]), nextPost, nextComment)
  {
    EditCommentKeepsWellFormed(db, i, c);
    var comments := db.comments[i := c];
    forall c | c in comments
      ensures c.id < nextComment
    {
      var j :| 0 <= j < |comments| && comments[j] == c;
      assert db.comments[j] in db.comments;
    }
  }

  lemma DeleteCommentKeepsValid(db: Db, nextPost: PostId, nextComment: CommentId, i: nat)
    requires ValidStore(db, nextPost, nextComment) && i < |db.comments|
    ensures ValidStore(db.(comments := RemoveAt(db.comments, i)), nextPost, nextComment)
  {
    DeleteCommentKeepsWellFormed(db, i);
  }

  lemma EditUserKeepsValid(db: Db, nextPost: PostId, nextComment: CommentId, i: nat, form: ProfileForm)
    requires ValidStore(db, nextPost, nextComment) && i < |db.users|
    requires ProfileFormValid(db, db.users[i].id, form)
    ensures ValidStore(db.(users := db.users[i := User(db.users[i].id, form.username, form.firstName, form.lastName, form.email)]), nextPost, nextComment)
  {
    EditUserKeepsWellFormed(db, i, form);
  }

  /** The blog's database: its four tables and the next values of the
      auto-incremented primary keys. */
  class Blog {
    var db: Db
    var nextPostId: PostId
    var nextCommentId: CommentId

    ghost predicate Valid()
      reads this
    {
      ValidStore(db, nextPostId, nextCommentId)
    }

    /** A store holding `initial`, whose users and categories come from
        registration and the admin site. */
    constructor (initial: Db, nextPost: PostId, nextComment: CommentId)
      requires ValidStore(initial, nextPost, nextComment)
      ensures Valid()
      ensures db == initial && nextPostId == nextPost && nextCommentId == nextComment
    {
      db, nextPostId, nextCommentId := initial, nextPost, nextComment;
    }

    /** PostCreateView: log in first; the author is forced to the acting
        user; on success go to that user's profile. */
    method CreatePost(user: Option<UserId>, form: PostForm, now: Time) returns (resp: Response)
      requires Valid()
      requires user.Some? ==> HasUser(db, user.value)
      modifies this
      ensures Valid()
      ensures nextCommentId == old(nextCommentId)
      ensures user.None? ==> resp == LoginRedirect && db == old(db) && nextPostId == old(nextPostId)
      ensures user.Some? && !PostFormValid(old(db), form) ==>
        resp == FormInvalid && db == old(db) && nextPostId == old(nextPostId)
      ensures user.Some? && PostFormValid(old(db), form) ==>
        && db == old(db).(posts := old(db).posts + [NewPost(old(nextPostId), form, user.value, now)])
        && nextPostId == old(nextPostId) + 1
        && resp == Redirect(ProfileUrl(UsernameOf(old(db), user.value)))
    {
      if user.None? {
        return LoginRedirect;
      }
      if !PostFormValid(db, form) {
        return FormInvalid;
      }
      var p := NewPost(nextPostId, form, user.value, now);
      AddPostKeepsValid(db, nextPostId, nextCommentId, p);
      resp := Redirect(ProfileUrl(UsernameOf(db, user.value)));
      db := db.(posts := db.posts + [p]);
      nextPostId := nextPostId + 1;
    }

    /** PostUpdateView: a missing post is a 404; anyone but the author,
        including an anonymous user, is sent back to the post's page with
        nothing changed; otherwise the form's fields are saved. */
    method UpdatePost(user: Option<UserId>, postId: PostId, form: PostForm) returns (resp: Response)
      requires Valid()
      modifies this
      ensures Valid()
      ensures nextPostId == old(nextPostId) && nextCommentId == old(nextCommentId)
      ensures PostIndex(old(db).posts, postId).None? ==> resp == Http404 && db == old(db)
      ensures PostIndex(old(db).posts, postId).Some? ==>
        var i := PostIndex(old(db).posts, postId).value;
        if !PassesOwnership(old(db).posts[i].author, user) then
          resp == Redirect(PostDetailUrl(postId)) && db == old(db)
        else if !PostFormValid(old(db), form) then
          resp == FormInvalid && db == old(db)
        else
          && resp == Redirect(PostDetailUrl(postId))
          && db == old(db).(posts := old(db).posts[i := EditedPost(old(db).posts[i], form)])
    {
      var found := PostIndex(db.posts, postId);
      if found.None? {
        return Http404;
      }
      var i := found.value;
      if !PassesOwnership(db.posts[i].author, user) {
        return Redirect(PostDetailUrl(postId));
      }
      if !PostFormValid(db, form) {
        return FormInvalid;
      }
      var p := EditedPost(db.posts[i], form);
      assert db.posts[i] in db.posts;
      EditPostKeepsValid(db, nextPostId, nextCommentId, i, p);
      db := db.(posts := db.posts[i := p]);
      resp := Redirect(PostDetailUrl(postId));
    }

    /** PostDeleteView: a missing post is a 404; anyone but the author gets
        the default denial; otherwise the post is deleted, its comments stay
        with their link nulled, and the author goes to their profile. */
    method DeletePost(user: Option<UserId>, postId: PostId) returns (resp: Response)
      requires Valid()
      requires user.Some? ==> HasUser(db, user.value)
      modifies this
      ensures Valid()
      ensures nextPostId == old(nextPostId) && nextCommentId == old(nextCommentId)
      ensures PostIndex(old(db).posts, postId).None? ==> resp == Http404 && db == old(db)
      ensures PostIndex(old(db).posts, postId).Some? ==>
        var i := PostIndex(old(db).posts, postId).value;
        if !PassesOwnership(old(db).posts[i].author, user) then
          resp == DefaultDenial(user) && db == old(db)
        else
          && resp == Redirect(ProfileUrl(UsernameOf(old(db), user.value)))
          && db == old(db).(posts := RemoveAt(old(db).posts, i), comments := Detach(old(db).comments, {postId}))
    {
      var found := PostIndex(db.posts, postId);
      if found.None? {
        return Http404;
      }
      var i := found.value;
      if !PassesOwnership(db.posts[i].author, user) {
        return DefaultDenial(user);
      }
      DeletePostKeepsValid(db, nextPostId, nextCommentId, i);
      resp := Redirect(ProfileUrl(UsernameOf(db, user.value)));
      db := db.(posts := RemoveAt(db.posts, i), comments := Detach(db.comments, {postId}));
    }

    /** CommentCreateView: log in first; a form without a publication date
        is refused; a missing post is a 404; otherwise the comment is stored
        with the acting user as author and the path's post as its post. */
    method CreateComment(user: Option<UserId>, postId: PostId, form: CommentForm, now: Time) returns (resp: Response)
      requires Valid()
      requires user.Some? ==> HasUser(db, user.value)
      modifies this
      ensures Valid()
      ensures nextPostId == old(nextPostId)
      ensures user.None? ==> resp == LoginRedirect && db == old(db) && nextCommentId == old(nextCommentId)
      ensures user.Some? && form.pubDate.None? ==>
        resp == FormInvalid && db == old(db) && nextCommentId == old(nextCommentId)
      ensures user.Some? && form.pubDate.Some? && !HasPost(old(db), postId) ==>
        resp == Http404 && db == old(db) && nextCommentId == old(nextCommentId)
      ensures user.Some? && form.pubDate.Some? && HasPost(old(db), postId) ==>
        && resp == Redirect(PostDetailUrl(postId))
        && db == old(db).(comments := old(db).comments + [NewComment(old(nextCommentId), form, user.value, postId, now).value])
        && nextCommentId == old(nextCommentId) + 1
    {
      if user.None? {
        return LoginRedirect;
      }
      var c := NewComment(nextCommentId, form, user.value, postId, now);
      if c.None? {
        return FormInvalid;
      }
      if PostIndex(db.posts, postId).None? {
        return Http404;
      }
      assert HasPost(db, postId);
      AddCommentKeepsValid(db, nextPostId, nextCommentId, c.value);
      db := db.(comments := db.comments + [c.value]);
      nextCommentId := nextCommentId + 1;
      resp := Redirect(PostDetailUrl(postId));
    }

    /** CommentUpdateView: a missing comment is a 404; anyone but its author
        gets the default denial; a form without a publication date is shown
        again; otherwise the form's fields are saved. The page returned to is
        the post named in the path. */
    method UpdateComment(user: Option<UserId>, postId: PostId, commentId: CommentId, form: CommentForm) returns (resp: Response)
      requires Valid()
      modifies this
      ensures Valid()
      ensures nextPostId == old(nextPostId) && nextCommentId == old(nextCommentId)
      ensures CommentIndex(old(db).comments, commentId).None? ==> resp == Http404 && db == old(db)
      ensures CommentIndex(old(db).comments, commentId).Some? ==>
        var i := CommentIndex(old(db).comments, commentId).value;
        if !PassesOwnership(old(db).comments[i].author, user) then
          resp == DefaultDenial(user) && db == old(db)
        else if form.pubDate.None? then
          resp == FormInvalid && db == old(db)
        else
          && resp == Redirect(PostDetailUrl(postId))
          && db == old(db).(comments := old(db).comments[i := EditedComment(old(db).comments[i], form).value])
    {
      var found := CommentIndex(db.comments, commentId);
      if found.None? {
        return Http404;
      }
      var i := found.value;
      if !PassesOwnership(db.comments[i].author, user) {
        return DefaultDenial(user);
      }
      var c := EditedComment(db.comments[i], form);
      if c.None? {
        return FormInvalid;
      }
      EditCommentKeepsValid(db, nextPostId, nextCommentId, i, c.value);
      db := db.(comments := db.comments[i := c.value]);
      resp := Redirect(PostDetailUrl(postId));
    }

    /** CommentDeleteView: a missing comment is a 404; anyone but its author
        gets the default denial; otherwise the comment is deleted. */
    method DeleteComment(user: Option<UserId>, postId: PostId, commentId: CommentId) returns (resp: Response)
      requires Valid()
      modifies this
      ensures Valid()
      ensures nextPostId == old(nextPostId) && nextCommentId == old(nextCommentId)
      ensures CommentIndex(old(db).comments, commentId).None? ==> resp == Http404 && db == old(db)
      ensures CommentIndex(old(db).comments, commentId).Some? ==>
        var i := CommentIndex(old(db).comments, commentId).value;
        if !PassesOwnership(old(db).comments[i].author, user) then
          resp == DefaultDenial(user) && db == old(db)
        else
          resp == Redirect(PostDetailUrl(postId)) && db == old(db).(comments := RemoveAt(old(db).comments, i))
    {
      var found := CommentIndex(db.comments, commentId);
      if found.None? {
        return Http404;
      }
      var i := found.value;
      if !PassesOwnership(db.comments[i].author, user) {
        return DefaultDenial(user);
      }
      DeleteCommentKeepsValid(db, nextPostId, nextCommentId, i);
      db := db.(comments := RemoveAt(db.comments, i));
      resp := Redirect(PostDetailUrl(postId));
    }

    /** UserUpdateView: the user edited is always the acting user; on success
        go to the profile under its new username. */
    method EditProfile(user: Option<UserId>, form: ProfileForm) returns (resp: Response)
      requires Valid()
      requires user.Some? ==> HasUser(db, user.value)
      modifies this
      ensures Valid()
      ensures nextPostId == old(nextPostId) && nextCommentId == old(nextCommentId)
      ensures user.None? ==> resp == LoginRedirect && db == old(db)
      ensures user.Some? && !ProfileFormValid(old(db), user.value, form) ==> resp == FormInvalid && db == old(db)
      ensures user.Some? && ProfileFormValid(old(db), user.value, form) ==>
        && UserIndex(old(db).users, user.value).Some?
        && var i := UserIndex(old(db).users, user.value).value;
        && db == old(db).(users := old(db).users[i := User(user.value, form.username, form.firstName, form.lastName, form.email)])
        && resp == Redirect(ProfileUrl(form.username))
    {
      if user.None? {
        return LoginRedirect;
      }
      if !ProfileFormValid(db, user.value, form) {
        return FormInvalid;
      }
      var i := UserIndex(db.users, user.value).value;
      EditUserKeepsValid(db, nextPostId, nextCommentId, i, form);
      db := db.(users := db.users[i := User(user.value, form.username, form.firstName, form.lastName, form.email)]);
      resp := Redirect(ProfileUrl(form.username));
    }

    /** Deleting a user (an admin action): the user's comments and posts go
        with it, and other comments on those posts lose their link. */
    method DeleteUser(uid: UserId)
      requires Valid()
      modifies this
      ensures Valid()
      ensures nextPostId == old(nextPostId) && nextCommentId == old(nextCommentId)
      ensures db == AfterUserDeleted(old(db), uid)
    {
      DeleteUserKeepsValid(db, uid, nextPostId, nextCommentId);
      db := AfterUserDeleted(db, uid);
    }
  }
}
