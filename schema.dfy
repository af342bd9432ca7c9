/** The tables of the blog: users, categories, posts and comments, held in
    memory as sequences of rows in storage order, and the integrity rules the
    database enforces on them (unique keys, foreign keys that resolve). */
module Schema {
  import opened Base

  type UserId = nat
  type CategoryId = nat
  type LocationId = nat
  type PostId = nat
  type CommentId = nat

  /** Timestamps are whole numbers on one clock. */
  type Time = int

  datatype User = User(id: UserId, username: string, firstName: string, lastName: string, email: string)

  datatype Category = Category(id: CategoryId, title: string, slug: string, isPublished: bool)

  /** `pubDate` may lie in the future (a scheduled post); `createdAt` is
      filled in by the store at creation. */
  datatype Post = Post(
    id: PostId,
    title: string,
    text: string,
    pubDate: Time,
    isPublished: bool,
    createdAt: Time,
    author: UserId,
    category: Option<CategoryId>,
    location: Option<LocationId>)

  /** `post` is nullable: a comment survives the deletion of its post. */
  datatype Comment = Comment(
    id: CommentId,
    text: string,
    pubDate: Time,
    isPublished: bool,
    createdAt: Time,
    author: UserId,
    post: Option<PostId>)

  datatype Db = Db(users: seq<User>, categories: seq<Category>, posts: seq<Post>, comments: seq<Comment>)

  // ---------------------------------------------------------------------
  // Keys and lookups

  function PostKey(p: Post): PostId { p.id }
  function CommentKey(c: Comment): CommentId { c.id }
  function UserKey(u: User): UserId { u.id }
  function UserName(u: User): string { u.username }
  function CategoryKey(c: Category): CategoryId { c.id }
  function CategorySlug(c: Category): string { c.slug }

  predicate DistinctPostIds(posts: seq<Post>) {
    DistinctBy(posts, PostKey)
  }

  predicate DistinctCommentIds(comments: seq<Comment>) {
    DistinctBy(comments, CommentKey)
  }

  /** `id` is the primary key and `username` is unique. */
  predicate DistinctUsers(users: seq<User>) {
    DistinctBy(users, UserKey) && DistinctBy(users, UserName)
  }

  /** `id` is the primary key and `slug` is unique. */
  predicate DistinctCategories(categories: seq<Category>) {
    DistinctBy(categories, CategoryKey) && DistinctBy(categories, CategorySlug)
  }

  /** The position of the user row with id `uid`. */
  function UserIndex(users: seq<User>, uid: UserId): (r: Option<nat>)
    ensures r.Some? ==> r.value < |users| && users[r.value].id == uid
    ensures r.None? <==> !(exists u :: u in users && u.id == uid)
  {
    FindIndex(users, (u: User) => u.id == uid)
  }

  function UserById(db: Db, uid: UserId): (r: Option<User>)
    ensures r.Some? ==> r.value in db.users && r.value.id == uid
    ensures r.None? <==> forall u :: u in db.users ==> u.id != uid
  {
    match UserIndex(db.users, uid)
    case None => None
    case Some(i) => Some(db.users[i])
  }

  function UserByName(db: Db, username: string): (r: Option<User>)
    ensures r.Some? ==> r.value in db.users && r.value.username == username
    ensures r.None? <==> forall u :: u in db.users ==> u.username != username
  {
    match FindIndex(db.users, (u: User) => u.username == username)
    case None => None
    case Some(i) => Some(db.users[i])
  }

  function CategoryById(db: Db, cid: CategoryId): (r: Option<Category>)
    ensures r.Some? ==> r.value in db.categories && r.value.id == cid
    ensures r.None? <==> forall c :: c in db.categories ==> c.id != cid
  {
    match FindIndex(db.categories, (c: Category) => c.id == cid)
    case None => None
    case Some(i) => Some(db.categories[i])
  }

  predicate HasUser(db: Db, uid: UserId) {
    exists u :: u in db.users && u.id == uid
  }

  predicate HasCategory(db: Db, cid: CategoryId) {
    exists c :: c in db.categories && c.id == cid
  }

  predicate HasPost(db: Db, pid: PostId) {
    exists p :: p in db.posts && p.id == pid
  }

  /** A nullable foreign key resolves when it is null or names a row. */
  predicate PostRefOk(db: Db, ref: Option<PostId>) {
    ref.Some? ==> HasPost(db, ref.value)
  }

  predicate CategoryRefOk(db: Db, ref: Option<CategoryId>) {
    ref.Some? ==> HasCategory(db, ref.value)
  }

  /** What the database guarantees of every state: primary keys and unique
      columns are unique, and every foreign key resolves. */
  predicate WellFormed(db: Db) {
    && DistinctUsers(db.users)
    && DistinctCategories(db.categories)
    && DistinctPostIds(db.posts)
    && DistinctCommentIds(db.comments)
    && (forall p :: p in db.posts ==> HasUser(db, p.author) && CategoryRefOk(db, p.category))
    && (forall c :: c in db.comments ==> HasUser(db, c.author) && PostRefOk(db, c.post))
  }

  /** In a table with distinct keys, the row found by key is the one that
      has the key. */
  lemma UserByIdUnique(db: Db, u: User)
    requires DistinctUsers(db.users) && u in db.users
    ensures UserById(db, u.id) == Some(u)
  {
    var i :| 0 <= i < |db.users| && db.users[i] == u;
  }
}
