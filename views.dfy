/** The read-only pages of the blog: the index, a user's profile, a
    category and a single post. Each is the base post queryset narrowed by
    that page's filter and cut into pages; a missing user, category, post or
    page is the framework's 404. */
module ReadViews {
  import opened Base
  import opened Schema
  import opened Queries

  function Public(db: Db, now: Time): Post -> bool {
    (p: Post) => IsPublic(db, now, p)
  }

  // ---------------------------------------------------------------------
  // PostListView

  /** The index: every public post and nothing else, newest first. */
  function Index(db: Db, now: Time): (r: seq<Entry>)
    ensures forall p :: p in PostsOf(r) <==>
      && p in db.posts
      && p.isPublished
      && p.pubDate <= now
      && CategoryOf(db, p).Some? && CategoryOf(db, p).value.isPublished
    ensures SortedByDateDesc(PostsOf(r))
    ensures forall i :: 0 <= i < |r| ==> r[i].commentCount == CommentCount(db.comments, r[i].post.id)
  {
    Listing(db, Public(db, now))
  }

  function IndexPage(db: Db, now: Time, page: int): (r: Result<seq<Entry>>)
    ensures r.Ok? <==> 1 <= page <= NumPages(|Index(db, now)|)
    ensures r.Ok? ==> |r.value| <= PaginatorNum
    ensures r.Ok? && page < NumPages(|Index(db, now)|) ==> |r.value| == PaginatorNum
    ensures r.Ok? ==> r.value <= Index(db, now)[(page - 1) * PaginatorNum..]
  {
    Paginate(Index(db, now), page)
  }

  /** Every entry on any index page is a public post of the table, with its
      true comment count. */
  lemma IndexPageShowsOnlyPublic(db: Db, now: Time, page: int, e: Entry)
    requires IndexPage(db, now, page).Ok? && e in IndexPage(db, now, page).value
    ensures e.post in db.posts && IsPublic(db, now, e.post)
    ensures e.commentCount == CommentCount(db.comments, e.post.id)
  {
    var items := Index(db, now);
    PageEntryIsListed(items, page, e);
    var k :| 0 <= k < |items| && items[k] == e;
    assert PostsOf(items)[k] == e.post;
  }

  /** An entry shown on a page is an entry of the listing. */
  lemma PageEntryIsListed(items: seq<Entry>, page: int, e: Entry)
    requires Paginate(items, page).Ok? && e in Paginate(items, page).value
    ensures e in items
  {
    var shown := Paginate(items, page).value;
    var b := (page - 1) * PaginatorNum;
    var k :| 0 <= k < |shown| && shown[k] == e;
    assert items[b..][k] == e;
  }

  // ---------------------------------------------------------------------
  // UserPostListView

  predicate WrittenBy(db: Db, username: string, p: Post) {
    UserById(db, p.author).Some? && UserById(db, p.author).value.username == username
  }

  /** A profile lists every post whose author has `username`, with no
      visibility filter: drafts and scheduled posts are listed too. */
  function ProfileListing(db: Db, username: string): (r: seq<Entry>)
    ensures forall p :: p in PostsOf(r) <==> p in db.posts && WrittenBy(db, username, p)
    ensures SortedByDateDesc(PostsOf(r))
    ensures forall i :: 0 <= i < |r| ==> r[i].commentCount == CommentCount(db.comments, r[i].post.id)
  {
    Listing(db, (p: Post) => WrittenBy(db, username, p))
  }

  datatype ProfileView = ProfileView(profile: User, posts: seq<Entry>)

  /** A profile page exists iff the user does and the page number is in
      range. */
  function ProfilePage(db: Db, username: string, page: int): (r: Result<ProfileView>)
    ensures r.Ok? <==> UserByName(db, username).Some? && 1 <= page <= NumPages(|ProfileListing(db, username)|)
    ensures r.Ok? ==> r.value.profile in db.users && r.value.profile.username == username
    ensures r.Ok? ==> Paginate(ProfileListing(db, username), page) == Ok(r.value.posts)
  {
    match Paginate(ProfileListing(db, username), page)
    case NotFound => NotFound
    case Ok(posts) =>
      match UserByName(db, username)
      case None => NotFound
      case Some(u) => Ok(ProfileView(u, posts))
  }

  /** Every post of a user is on that user's profile, whatever its
      publication flag, date or category. */
  lemma ProfileListsAllOwnPosts(db: Db, u: User, p: Post)
    requires WellFormed(db)
    requires u in db.users && p in db.posts && p.author == u.id
    ensures p in PostsOf(ProfileListing(db, u.username))
  {
    UserByIdUnique(db, u);
  }

  // ---------------------------------------------------------------------
  // CategoryPostListView

  predicate InCategory(db: Db, slug: string, p: Post) {
    CategoryOf(db, p).Some? && CategoryOf(db, p).value.slug == slug
  }

  /** A category page lists exactly the public posts of that category. */
  function CategoryListing(db: Db, now: Time, slug: string): (r: seq<Entry>)
    ensures forall p :: p in PostsOf(r) <==> p in db.posts && IsPublic(db, now, p) && InCategory(db, slug, p)
    ensures SortedByDateDesc(PostsOf(r))
    ensures forall i :: 0 <= i < |r| ==> r[i].commentCount == CommentCount(db.comments, r[i].post.id)
  {
    Listing(db, (p: Post) => IsPublic(db, now, p) && InCategory(db, slug, p))
  }

  /** `get_object_or_404(Category, slug=..., is_published=True)`. */
  function PublishedCategory(db: Db, slug: string): (r: Option<Category>)
    ensures r.Some? ==> r.value in db.categories && r.value.slug == slug && r.value.isPublished
    ensures r.None? <==> forall c :: c in db.categories ==> !(c.slug == slug && c.isPublished)
  {
    match FindIndex(db.categories, (c: Category) => c.slug == slug && c.isPublished)
    case None => None
    case Some(i) => Some(db.categories[i])
  }

  datatype CategoryView = CategoryView(category: Category, posts: seq<Entry>)

  /** A category page exists iff a published category has that slug and the
      page number is in range; an unpublished category is a 404 even when it
      exists. */
  function CategoryPage(db: Db, now: Time, slug: string, page: int): (r: Result<CategoryView>)
    ensures r.Ok? <==>
      && (exists c :: c in db.categories && c.slug == slug && c.isPublished)
      && 1 <= page <= NumPages(|CategoryListing(db, now, slug)|)
    ensures r.Ok? ==> r.value.category in db.categories && r.value.category.slug == slug && r.value.category.isPublished
    ensures r.Ok? ==> Paginate(CategoryListing(db, now, slug), page) == Ok(r.value.posts)
  {
    match Paginate(CategoryListing(db, now, slug), page)
    case NotFound => NotFound
    case Ok(posts) =>
      match PublishedCategory(db, slug)
      case None => NotFound
      case Some(c) => Ok(CategoryView(c, posts))
  }

  // ---------------------------------------------------------------------
  // PostDetailView

  function ByAuthor(uid: UserId): Post -> bool {
    (p: Post) => p.author == uid
  }

  predicate MayOpen(db: Db, now: Time, viewer: Option<UserId>, p: Post) {
    IsPublic(db, now, p) || viewer == Some(p.author)
  }

  /** The posts a viewer may open: the public ones, and for a logged-in
      viewer also every post of their own, as one queryset. */
  function DetailQueryset(db: Db, now: Time, viewer: Option<UserId>): (r: seq<Entry>)
    ensures forall p :: p in PostsOf(r) <==> p in db.posts && MayOpen(db, now, viewer, p)
  {
    if viewer.Some? then
      Listing(db, (p: Post) => MayOpen(db, now, viewer, p))
    else
      Listing(db, Public(db, now))
  }

  /** For a logged-in viewer the queryset is the union of the public
      listing and the viewer's own posts; anonymously it is the public
      listing alone. */
  lemma DetailQuerysetIsUnion(db: Db, now: Time, viewer: Option<UserId>)
    ensures viewer.None? ==> forall p :: p in PostsOf(DetailQueryset(db, now, viewer)) <==> p in PostsOf(Index(db, now))
    ensures viewer.Some? ==> forall p :: p in PostsOf(DetailQueryset(db, now, viewer)) <==>
      p in PostsOf(Index(db, now)) || p in PostsOf(Listing(db, ByAuthor(viewer.value)))
  {
  }

  /** The union never lists a post twice. */
  lemma DetailQuerysetDistinct(db: Db, now: Time, viewer: Option<UserId>)
    requires DistinctPostIds(db.posts)
    ensures DistinctPostIds(PostsOf(DetailQueryset(db, now, viewer)))
  {
    if viewer.Some? {
      ListingDistinct(db, (p: Post) => MayOpen(db, now, viewer, p));
    } else {
      ListingDistinct(db, Public(db, now));
    }
  }

  datatype DetailView = DetailView(entry: Entry, comments: seq<Comment>)

  function HasId(pid: PostId): Entry -> bool {
    (e: Entry) => e.post.id == pid
  }

  /** A post page exists iff a post with that id exists and is public or
      written by the viewer. It shows that post, its comment count and all
      comments that point at it, published or not. */
  function PostDetail(db: Db, now: Time, viewer: Option<UserId>, pid: PostId): (r: Result<DetailView>)
    ensures r.Ok? <==> exists p :: p in db.posts && p.id == pid && MayOpen(db, now, viewer, p)
    ensures r.Ok? ==> r.value.entry.post in db.posts && r.value.entry.post.id == pid
    ensures r.Ok? ==> r.value.entry.commentCount == CommentCount(db.comments, pid)
    ensures r.Ok? ==> forall c :: c in r.value.comments <==> c in db.comments && c.post == Some(pid)
  {
    var qs := DetailQueryset(db, now, viewer);
    match FindIndex(qs, HasId(pid))
    case None =>
      DetailMissing(db, now, viewer, pid);
      NotFound
    case Some(i) =>
      assert qs[i].post == PostsOf(qs)[i];
      Ok(DetailView(qs[i], CommentsOf(db.comments, pid)))
  }

  lemma DetailMissing(db: Db, now: Time, viewer: Option<UserId>, pid: PostId)
    requires FindIndex(DetailQueryset(db, now, viewer), HasId(pid)).None?
    ensures forall p :: p in db.posts && p.id == pid ==> !MayOpen(db, now, viewer, p)
  {
    NoEntryWithId(DetailQueryset(db, now, viewer), pid);
  }

  lemma NoEntryWithId(qs: seq<Entry>, pid: PostId)
    requires FindIndex(qs, HasId(pid)).None?
    ensures forall p :: p in PostsOf(qs) ==> p.id != pid
  {
    forall p | p in PostsOf(qs)
      ensures p.id != pid
    {
      var i :| 0 <= i < |qs| && PostsOf(qs)[i] == p;
      assert !HasId(pid)(qs[i]);
    }
  }

  /** An author can always open their own post, published or not. */
  lemma AuthorSeesOwnPost(db: Db, now: Time, p: Post)
    requires DistinctPostIds(db.posts) && p in db.posts
    ensures PostDetail(db, now, Some(p.author), p.id).Ok?
    ensures PostDetail(db, now, Some(p.author), p.id).value.entry.post == p
  {
    OnlyPostWithId(db, p, PostDetail(db, now, Some(p.author), p.id).value.entry.post);
  }

  /** Anyone other than the author, logged in or not, can open a post iff
      it is public. */
  lemma OthersSeeOnlyPublic(db: Db, now: Time, viewer: Option<UserId>, p: Post)
    requires DistinctPostIds(db.posts) && p in db.posts
    requires viewer != Some(p.author)
    ensures PostDetail(db, now, viewer, p.id).Ok? <==> IsPublic(db, now, p)
  {
    var r := PostDetail(db, now, viewer, p.id);
    if r.Ok? {
      var q :| q in db.posts && q.id == p.id && MayOpen(db, now, viewer, q);
      OnlyPostWithId(db, p, q);
    }
  }

  lemma OnlyPostWithId(db: Db, p: Post, q: Post)
    requires DistinctPostIds(db.posts) && p in db.posts && q in db.posts && q.id == p.id
    ensures q == p
  {
    var i :| 0 <= i < |db.posts| && db.posts[i] == p;
    var j :| 0 <= j < |db.posts| && db.posts[j] == q;
    assert i < j ==> PostKey(db.posts[i]) != PostKey(db.posts[j]);
    assert j < i ==> PostKey(db.posts[j]) != PostKey(db.posts[i]);
  }
}
