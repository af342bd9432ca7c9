/** The query building blocks the views share: the base post queryset
    (every post, annotated with its comment count, newest publication date
    first), the public-visibility filter, and paging by a fixed page size. */
module Queries {
  import opened Base
  import opened Schema

  /** Posts per listing page. */
  const PaginatorNum: nat := 10

  /** A post as listed: the row plus its `comment_count` annotation. */
  datatype Entry = Entry(post: Post, commentCount: nat)

  // ---------------------------------------------------------------------
  // comment_count = Count('post_comments')

  /** How many comments point at post `pid`, whatever their own
      `is_published` flag. */
  function CommentCount(comments: seq<Comment>, pid: PostId): (n: nat) {
    if comments == [] then 0
    else (if comments[0].post == Some(pid) then 1 else 0) + CommentCount(comments[1..], pid)
  }

  function OnPost(pid: PostId): Comment -> bool {
    (c: Comment) => c.post == Some(pid)
  }

  /** The comments shown under post `pid` (`Comment.objects.filter(post_id=...)`). */
  function CommentsOf(comments: seq<Comment>, pid: PostId): (r: seq<Comment>)
    ensures forall c :: c in r <==> c in comments && c.post == Some(pid)
  {
    Filter(comments, OnPost(pid))
  }

  /** The annotated count is exactly the number of comments the detail
      page lists for that post. */
  lemma {:induction false} CommentCountMatchesComments(comments: seq<Comment>, pid: PostId)
    ensures CommentCount(comments, pid) == |CommentsOf(comments, pid)|
  {
    if comments != [] {
      CommentCountMatchesComments(comments[1..], pid);
    }
  }

  /** The count looks only at each comment's `post` link: two comment tables
      that agree on those links agree on every count, so in particular
      publishing or hiding a comment never changes a count. */
  lemma {:induction false} CommentCountOnlyReadsLinks(a: seq<Comment>, b: seq<Comment>, pid: PostId)
    requires |a| == |b|
    requires forall i :: 0 <= i < |a| ==> a[i].post == b[i].post
    ensures CommentCount(a, pid) == CommentCount(b, pid)
  {
    if a != [] {
      CommentCountOnlyReadsLinks(a[1..], b[1..], pid);
    }
  }

  lemma CommentCountIgnoresPublication(comments: seq<Comment>, i: nat, published: bool, pid: PostId)
    requires i < |comments|
    ensures CommentCount(comments[i := comments[i].(isPublished := published)], pid) == CommentCount(comments, pid)
  {
    CommentCountOnlyReadsLinks(comments[i := comments[i].(isPublished := published)], comments, pid);
  }

  // ---------------------------------------------------------------------
  // order_by('-pub_date')

  predicate SortedByDateDesc(s: seq<Post>) {
    forall i, j :: 0 <= i < j < |s| ==> s[i].pubDate >= s[j].pubDate
  }

  /** Insert `p` into a listing sorted newest first, ahead of the posts
      with the same date. */
  function InsertByDate(p: Post, s: seq<Post>): (r: seq<Post>)
    requires SortedByDateDesc(s)
    ensures SortedByDateDesc(r)
    ensures multiset(r) == multiset(s) + multiset{p}
  {
    if s == [] || p.pubDate >= s[0].pubDate then
      PrependSorted(p, s);
      [p] + s
    else
      var rest := InsertByDate(p, s[1..]);
      forall x | x in rest
        ensures x.pubDate <= s[0].pubDate
      {
        assert x in multiset(rest);
      }
      PrependSorted(s[0], rest);
      assert s == [s[0]] + s[1..];
      [s[0]] + rest
  }

  lemma PrependSorted(x: Post, s: seq<Post>)
    requires SortedByDateDesc(s)
    requires forall y :: y in s ==> y.pubDate <= x.pubDate
    ensures SortedByDateDesc([x] + s)
  {
    forall i, j | 0 <= i < j < |[x] + s|
      ensures ([x] + s)[i].pubDate >= ([x] + s)[j].pubDate
    {
      if i > 0 {
        assert ([x] + s)[i] == s[i - 1];
      }
      assert ([x] + s)[j] == s[j - 1];
    }
  }

  /** The posts of `s` newest first; posts with equal dates keep their
      table order. */
  function SortByDate(s: seq<Post>): (r: seq<Post>)
    ensures SortedByDateDesc(r)
    ensures multiset(r) == multiset(s)
  {
    if s == [] then []
    else
      assert s == [s[0]] + s[1..];
      InsertByDate(s[0], SortByDate(s[1..]))
  }

  /** Sorting moves posts but never duplicates one. */
  lemma {:induction false} SortKeepsDistinct(s: seq<Post>)
    requires DistinctPostIds(s)
    ensures DistinctPostIds(SortByDate(s))
  {
    if s != [] {
      SortKeepsDistinct(s[1..]);
      var sorted := SortByDate(s[1..]);
      forall x | x in sorted
        ensures x.id != s[0].id
      {
        assert x in multiset(s[1..]);
        var j :| 0 <= j < |s[1..]| && s[1..][j] == x;
        assert PostKey(s[0]) != PostKey(s[j + 1]);
      }
      InsertKeepsDistinct(s[0], sorted);
    }
  }

  lemma {:induction false} InsertKeepsDistinct(p: Post, s: seq<Post>)
    requires SortedByDateDesc(s) && DistinctPostIds(s)
    requires forall x :: x in s ==> x.id != p.id
    ensures DistinctPostIds(InsertByDate(p, s))
  {
    if s == [] || p.pubDate >= s[0].pubDate {
      PrependDistinct(p, s);
    } else {
      var rest := InsertByDate(p, s[1..]);
      forall x | x in s[1..] ensures x.id != s[0].id {
        var j :| 0 <= j < |s[1..]| && s[1..][j] == x;
        assert PostKey(s[0]) != PostKey(s[j + 1]);
      }
      DistinctTail(s);
      InsertKeepsDistinct(p, s[1..]);
      forall x | x in rest
        ensures x.id != s[0].id
      {
        assert x in multiset(rest);
      }
      PrependDistinct(s[0], rest);
    }
  }

  lemma DistinctTail(s: seq<Post>)
    requires s != [] && DistinctPostIds(s)
    ensures DistinctPostIds(s[1..])
  {
    forall i, j | 0 <= i < j < |s[1..]|
      ensures PostKey(s[1..][i]) != PostKey(s[1..][j])
    {
      assert PostKey(s[i + 1]) != PostKey(s[j + 1]);
    }
  }

  lemma PrependDistinct(x: Post, s: seq<Post>)
    requires DistinctPostIds(s)
    requires forall y :: y in s ==> y.id != x.id
    ensures DistinctPostIds([x] + s)
  {
    forall i, j | 0 <= i < j < |[x] + s|
      ensures PostKey(([x] + s)[i]) != PostKey(([x] + s)[j])
    {
      assert ([x] + s)[j] == s[j - 1];
      if i > 0 {
        assert ([x] + s)[i] == s[i - 1];
        assert PostKey(s[i - 1]) != PostKey(s[j - 1]);
      }
    }
  }

  // ---------------------------------------------------------------------
  // get_base_post_queryset() followed by a filter

  function Annotate(comments: seq<Comment>, s: seq<Post>): (r: seq<Entry>) {
    seq(|s|, i requires 0 <= i < |s| => Entry(s[i], CommentCount(comments, s[i].id)))
  }

  /** The posts of a listing, without their annotations. */
  function PostsOf(entries: seq<Entry>): (r: seq<Post>)
    ensures |r| == |entries|
  {
    seq(|entries|, i requires 0 <= i < |entries| => entries[i].post)
  }

  /** The base queryset narrowed by `keep`: exactly the posts of the table
      that `keep` accepts, each once, newest first, each carrying the number
      of comments that point at it. */
  function Listing(db: Db, keep: Post -> bool): (r: seq<Entry>)
    ensures forall p :: p in PostsOf(r) <==> p in db.posts && keep(p)
    ensures multiset(PostsOf(r)) == multiset(Filter(db.posts, keep))
    ensures SortedByDateDesc(PostsOf(r))
    ensures forall i :: 0 <= i < |r| ==> r[i].commentCount == CommentCount(db.comments, r[i].post.id)
  {
    var sorted := SortByDate(Filter(db.posts, keep));
    PostsOfAnnotate(db.comments, sorted);
    forall p
      ensures p in sorted <==> p in db.posts && keep(p)
    {
      assert p in sorted <==> p in multiset(sorted);
    }
    Annotate(db.comments, sorted)
  }

  lemma PostsOfAnnotate(comments: seq<Comment>, s: seq<Post>)
    ensures PostsOf(Annotate(comments, s)) == s
  {
  }

  /** A listing of a table with distinct post ids lists no post twice. */
  lemma ListingDistinct(db: Db, keep: Post -> bool)
    requires DistinctPostIds(db.posts)
    ensures DistinctPostIds(PostsOf(Listing(db, keep)))
  {
    var f := Filter(db.posts, keep);
    FilterDistinct(db.posts, keep, PostKey);
    SortKeepsDistinct(f);
    PostsOfAnnotate(db.comments, SortByDate(f));
  }

  // ---------------------------------------------------------------------
  // base_filter_queryset

  /** The category a post's foreign key names, if it resolves. */
  function CategoryOf(db: Db, p: Post): (r: Option<Category>) {
    if p.category.None? then None else CategoryById(db, p.category.value)
  }

  /** A post is public at `now` when it is published, its publication date
      has come and it belongs to a published category; a post without a
      category is never public. */
  predicate IsPublic(db: Db, now: Time, p: Post) {
    && p.pubDate <= now
    && CategoryOf(db, p).Some? && CategoryOf(db, p).value.isPublished
    && p.isPublished
  }

  // ---------------------------------------------------------------------
  // paginate_by = PAGINATOR_NUM

  /** The number of pages of a listing of `count` posts; an empty listing
      still has its one, empty, first page. */
  function NumPages(count: nat): (n: nat)
    ensures n >= 1
    ensures (n - 1) * PaginatorNum <= count
    ensures count <= n * PaginatorNum
    ensures count > 0 ==> (n - 1) * PaginatorNum < count
  {
    if count == 0 then 1 else (count + PaginatorNum - 1) / PaginatorNum
  }

  /** Page `page` (counted from 1) of `items`, or NotFound when there is no
      such page. */
  function Paginate<T>(items: seq<T>, page: int): (r: Result<seq<T>>)
    ensures r.Ok? <==> 1 <= page <= NumPages(|items|)
    ensures r.Ok? ==> |r.value| <= PaginatorNum
    ensures r.Ok? && page < NumPages(|items|) ==> |r.value| == PaginatorNum
    ensures r.Ok? ==> r.value <= items[(page - 1) * PaginatorNum..]
  {
    if page < 1 || page > NumPages(|items|) then NotFound
    else
      var bottom := (page - 1) * PaginatorNum;
      var top := if bottom + PaginatorNum >= |items| then |items| else bottom + PaginatorNum;
      Ok(items[bottom..top])
  }

  /** The pages of `items` in order. */
  function Pages<T>(items: seq<T>): (r: seq<seq<T>>)
    decreases |items|
  {
    if |items| <= PaginatorNum then [items]
    else [items[..PaginatorNum]] + Pages(items[PaginatorNum..])
  }

  function Concat<T>(pages: seq<seq<T>>): (r: seq<T>) {
    if pages == [] then [] else pages[0] + Concat(pages[1..])
  }

  /** Reading the pages in order gives back the whole listing, and there are
      exactly as many pages as Paginate serves. */
  lemma {:induction false} PagesCoverListing<T>(items: seq<T>)
    ensures Concat(Pages(items)) == items
    ensures |Pages(items)| == NumPages(|items|)
    decreases |items|
  {
    if |items| > PaginatorNum {
      PagesCoverListing(items[PaginatorNum..]);
      assert items == items[..PaginatorNum] + items[PaginatorNum..];
    }
  }

  /** Page `k` of Pages is what Paginate serves for page number `k`. */
  lemma {:induction false} PagesAgreeWithPaginate<T>(items: seq<T>, k: nat)
    requires 1 <= k <= NumPages(|items|)
    ensures k <= |Pages(items)| && Paginate(items, k) == Ok(Pages(items)[k - 1])
    decreases |items|
  {
    PagesCoverListing(items);
    if |items| > PaginatorNum && k > 1 {
      var tail := items[PaginatorNum..];
      PagesCoverListing(tail);
      assert NumPages(|tail|) == NumPages(|items|) - 1;
      PagesAgreeWithPaginate(tail, k - 1);
      assert Pages(items)[k - 1] == Pages(tail)[k - 2];
      var b := (k - 2) * PaginatorNum;
      assert (k - 1) * PaginatorNum == b + PaginatorNum;
      var t := if b + PaginatorNum >= |tail| then |tail| else b + PaginatorNum;
      assert Paginate(tail, k - 1) == Ok(tail[b..t]);
      assert tail[b..t] == items[b + PaginatorNum..t + PaginatorNum];
    }
  }
}
