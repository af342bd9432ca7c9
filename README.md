# Blogicum: visibility, ownership and deletion rules

Blogicum is a small Django blog. Users write posts, which belong to
categories and may be drafts (`is_published` false) or scheduled (a
`pub_date` in the future), and other users comment on them. This project
models that core in Dafny. It covers:

- which posts each reader-facing page lists;
- who may change or delete a post or a comment, and what a refused request
  answers;
- what the create pages force onto the stored row;
- what deleting a post or a user does to the comments.

The database is an in-memory `Db` of four tables, each held as a sequence
of rows in storage order (`Schema`). `WellFormed` states the integrity the database
enforces:

- unique ids, usernames and category slugs;
- every foreign key resolves.

Modules:

- `Base`: `Option`, `Result` (a value or the framework's 404), and
  order-preserving `Filter` and `FindIndex` over sequences. These are the
  stand-ins for queryset filtering and lookup.
- `Schema`: the entities, the `Db`, key uniqueness, lookups and
  `WellFormed`.
- `CommentSchema`: the Comment table as migration 0003 declares it:
  - `is_published` defaults to true;
  - `pub_date` has no default;
  - `created_at` is stamped at creation;
  - `post` is set to null on delete (`Detach`);
  - `author` cascades (`CascadeAuthor`).
- `Queries`: the base post queryset. It holds every post, annotated with
  `comment_count` and ordered by `pub_date` descending. The module also has
  the public-visibility filter (`IsPublic`) and paging by `PaginatorNum`
  (10).
- `ReadViews`: the index, profile, category and post-detail pages as pure
  functions of the store, the clock `now` and the viewer.
- `Store`: the ownership guard (`PassesOwnership`, the framework's
  `DefaultDenial`) and the forms. It also defines the class `Blog`, whose
  methods are the state-changing pages:
  - create, edit and delete a post;
  - create, edit and delete a comment;
  - edit one's own profile;
  - delete a user (the administrative action).

  The class holds the database `db` and the two auto-increment counters.
  Each page method states its answer (`Response`) and its whole new state
  on every branch; `DeleteUser`, an admin action rather than a page, has
  no answer and states only its new state. Every method keeps `Valid()`:
  the database is well formed and every key lies below its counter.

The acting user is an `Option<UserId>`; `None` is an anonymous request. The
clock is the `now` parameter.

## Model

| member | source | states |
|---|---|---|
| Queries.CommentsOf | blogicum/blog/views.py:120-122 | the comments shown under a post are exactly those whose post link names it |
| Queries.CommentCountMatchesComments | blogicum/blog/views.py:28-29 | the comment_count annotation equals the number of comments linked to the post, which the detail page lists |
| Queries.CommentCountOnlyReadsLinks | blogicum/blog/views.py:28-29 | the count depends on nothing but the comments' post links |
| Queries.CommentCountIgnoresPublication | blogicum/blog/views.py:28-29 | hiding or publishing a comment never changes any post's count |
| Queries.InsertByDate | blogicum/blog/views.py:30 | inserting into a newest-first listing keeps it newest-first and adds exactly that post |
| Queries.SortByDate | blogicum/blog/views.py:30 | the result is ordered by pub_date descending and is a permutation of the input |
| Queries.SortKeepsDistinct | blogicum/blog/views.py:30 | ordering never lists a post twice |
| Queries.Listing | blogicum/blog/views.py:24-30 | a filtered base queryset holds exactly the accepted posts of the table, as a multiset equal to the filter, newest first, each annotated with its true comment count |
| Queries.ListingDistinct | blogicum/blog/views.py:24-30 | a listing never shows a post twice |
| Queries.NumPages | blogicum/blog/views.py:61-62 | the page count is at least one; pages of ten cover the listing, and the last page is non-empty unless the listing is empty |
| Queries.Paginate | blogicum/blog/views.py:61-62 | a page exists iff its number is between 1 and the page count; it holds at most ten posts, exactly ten unless it is the last, and is the listing read from position (page-1)*10 |
| Queries.PagesCoverListing | blogicum/blog/views.py:61-62 | reading all pages in order gives back the whole listing, and there are as many pages as the page count |
| Queries.PagesAgreeWithPaginate | blogicum/blog/views.py:61-62 | the k-th page of the listing is what page number k serves |
| Queries.IsPublic | blogicum/blog/views.py:33-37 | a post is public at `now` iff it is published, its pub_date is not after `now`, and its category exists and is published; a post without a category is never public |
| ReadViews.Index | blogicum/blog/views.py:68-73 | the index lists exactly the posts that are published, dated no later than now and in a published category, newest first, each with its comment count |
| ReadViews.IndexPage | blogicum/blog/views.py:61-73 | an index page exists iff its number is in range; it is the index read from position (page-1)*10, with exactly ten posts on every page but the last and at most ten on the last |
| ReadViews.IndexPageShowsOnlyPublic | blogicum/blog/views.py:68-73 | every entry on every index page is a public post of the table, with its true comment count |
| ReadViews.ProfileListing | blogicum/blog/views.py:79-81 | a profile lists every post whose author has the username, drafts and scheduled posts included, and nothing else, newest first, each with its true comment count |
| ReadViews.ProfilePage | blogicum/blog/views.py:83-88 | a profile page exists iff a user with that username exists and the page number is in range; it shows that user and that page of the listing |
| ReadViews.ProfileListsAllOwnPosts | blogicum/blog/views.py:79-81 | every post of a user is on that user's profile, whatever its flag, date or category |
| ReadViews.CategoryListing | blogicum/blog/views.py:184-188 | a category listing holds exactly the public posts whose category has the slug, newest first, each with its true comment count |
| ReadViews.PublishedCategory | blogicum/blog/views.py:192-195 | the lookup finds a category with the slug that is published, and fails iff there is none |
| ReadViews.CategoryPage | blogicum/blog/views.py:190-196 | a category page exists iff a published category has the slug and the page number is in range; an unpublished category is a 404 |
| ReadViews.MayOpen | blogicum/blog/views.py:107-111 | a viewer may open a post iff it is public or the viewer is its author; an anonymous viewer only the public ones |
| ReadViews.DetailQueryset | blogicum/blog/views.py:104-114 | the posts a viewer may open are exactly the public ones and, for a logged-in viewer, also the viewer's own |
| ReadViews.DetailQuerysetIsUnion | blogicum/blog/views.py:107-114 | anonymously the detail queryset is the index; logged in it is the union of the index and the viewer's posts |
| ReadViews.DetailQuerysetDistinct | blogicum/blog/views.py:110-111 | the union never yields a post twice |
| ReadViews.PostDetail | blogicum/blog/views.py:116-123 | a post page exists iff a post with the id exists and is public or written by the viewer; it shows that post, its count and exactly the comments linked to it |
| ReadViews.PageEntryIsListed | blogicum/blog/views.py:61-62 | every entry shown on a page is an entry of the listing |
| ReadViews.DetailMissing | blogicum/blog/views.py:104-118 | if the id is not in the viewer's queryset, no post with that id may be opened by the viewer |
| ReadViews.AuthorSeesOwnPost | blogicum/blog/views.py:107-111 | an author can always open their own post, and the page shows that very post |
| ReadViews.OthersSeeOnlyPublic | blogicum/blog/views.py:104-114 | any other viewer, anonymous or not, can open a post iff it is public |
| Schema.UserByName | blogicum/blog/views.py:85-87 | the profile lookup finds a user with that username, and fails iff none has it |
| Store.PassesOwnership | blogicum/blog/views.py:40-43 | the ownership test passes iff the user is logged in and is the object's author |
| Store.DefaultDenial | blogicum/blog/views.py:40-43 | a failed ownership test answers a login redirect iff the user is anonymous, and permission denied iff logged in |
| Store.NewPost | blogicum/blog/views.py:92-94 | a created post takes the acting user as author, never the form's claim, and every other field from the form |
| Store.EditedPost | blogicum/blog/views.py:126-132 | an edit keeps the key, the author and the creation time, and takes the rest from the form |
| CommentSchema.NewComment | blogicum/blog/migrations/0003_comment.py:19-25 | a submission is stored iff it has a pub_date; created_at is now; author and post are forced; is_published defaults to true |
| CommentSchema.EditedComment | blogicum/blog/views.py:163-166 | an edit is saved iff the form has a pub_date; text, date and a supplied publication flag come from the form; key, author, post link and creation time are kept |
| CommentSchema.Detach | blogicum/blog/migrations/0003_comment.py:25 | after posts are deleted every comment stays in place, a link to a deleted post becomes null, and nothing else changes |
| CommentSchema.DetachLeavesNoReference | blogicum/blog/migrations/0003_comment.py:25 | after detaching, no comment refers to a deleted post |
| CommentSchema.CascadeAuthor | blogicum/blog/migrations/0003_comment.py:24 | after a user is deleted exactly that user's comments are gone, and the table shrinks by their number |
| CommentSchema.CascadeAuthorCount | blogicum/blog/migrations/0003_comment.py:24 | the kept comments and the user's comments together are the whole table |
| Store.AddPostKeepsWellFormed | blogicum/blog/views.py:91-98 | adding a post with a new id, an existing author and a resolving category keeps the store well formed |
| Store.EditPostKeepsWellFormed | blogicum/blog/views.py:126-132 | replacing a post by one with the same id and resolving references keeps the store well formed |
| Store.DeletePostKeepsWellFormed | blogicum/blog/migrations/0003_comment.py:25 | deleting a post and nulling its comments' links leaves no dangling reference |
| Store.AddCommentKeepsWellFormed | blogicum/blog/views.py:154-160 | adding a comment with a new id, an existing author and a resolving post keeps the store well formed |
| Store.EditCommentKeepsWellFormed | blogicum/blog/views.py:163-166 | replacing a comment by one with the same key, author and post link keeps the store well formed |
| Store.DeleteCommentKeepsWellFormed | blogicum/blog/views.py:169-178 | deleting a comment keeps the store well formed |
| Store.EditUserKeepsWellFormed | blogicum/blog/views.py:199-209 | a valid profile edit keeps ids and usernames unique and every author reference resolving |
| Store.AddPostKeepsValid | blogicum/blog/views.py:91-98 | a post stored under the next key keeps the store valid and moves the post counter past it |
| Store.EditPostKeepsValid | blogicum/blog/views.py:126-132 | saving an edited post in place keeps the store valid |
| Store.DeletePostKeepsValid | blogicum/blog/views.py:135-145 | deleting a post and nulling its comments' links keeps the store valid |
| Store.AddCommentKeepsValid | blogicum/blog/views.py:154-160 | a comment stored under the next key keeps the store valid and moves the comment counter past it |
| Store.EditCommentKeepsValid | blogicum/blog/views.py:163-166 | saving an edited comment in place keeps the store valid |
| Store.DeleteCommentKeepsValid | blogicum/blog/views.py:169-178 | deleting a comment keeps the store valid |
| Store.EditUserKeepsValid | blogicum/blog/views.py:199-209 | a valid profile edit keeps the store valid |
| Store.DetachKeepsKeysDistinct | blogicum/blog/migrations/0003_comment.py:25 | nulling links never makes two comments share an id |
| Store.DetachedLinkResolves | blogicum/blog/migrations/0003_comment.py:25 | a link that survives a post deletion still names a remaining post |
| Store.AfterUserDeleted | blogicum/blog/migrations/0003_comment.py:24-25 | the tables after a user deletion: the user row, that user's posts and that user's comments are removed, the categories are untouched, and surviving comments that pointed at a removed post point at nothing |
| Store.AfterUserDeletedRows | blogicum/blog/migrations/0003_comment.py:24 | deleting a user removes exactly that user, that user's posts and that user's comments, and no category |
| Store.AfterUserDeletedKeepsOthers | blogicum/blog/migrations/0003_comment.py:24-25 | every comment by another user survives, detached from the deleted posts |
| Store.AfterUserDeletedComments | blogicum/blog/migrations/0003_comment.py:24-25 | every comment left is an old comment by another user, detached from the deleted posts |
| Store.DeleteUserKeepsKeysDistinct | blogicum/blog/migrations/0003_comment.py:24 | the tables left after a user deletion keep unique ids and usernames |
| Store.DeleteUserKeepsWellFormed | blogicum/blog/migrations/0003_comment.py:24-25 | deleting a user leaves no post or comment pointing at a missing row |
| Store.AfterUserDeletedKeepsKeysBelow | blogicum/blog/migrations/0003_comment.py:24 | a user deletion introduces no key above the counters |
| Store.DeleteUserKeepsValid | blogicum/blog/migrations/0003_comment.py:24-25 | a user deletion keeps the store valid |
| Store.Blog.CreatePost | blogicum/blog/views.py:91-98 | anonymous: login redirect; invalid form: nothing changes; otherwise appends the post with the next id and the acting user as author, and redirects to the acting user's profile |
| Store.Blog.UpdatePost | blogicum/blog/views.py:126-132 | missing post: 404; anyone but the author, anonymous included, is redirected to the post's page with nothing changed; otherwise the edited post replaces the old one in place |
| Store.Blog.DeletePost | blogicum/blog/views.py:135-145 | missing post: 404; anyone but the author gets the default denial with nothing changed; otherwise the post is removed, its comments stay with their link nulled, and the author goes to their profile |
| Store.Blog.CreateComment | blogicum/blog/views.py:148-160 | anonymous: login redirect; no pub_date: form error; missing post: 404; otherwise appends the comment with the acting user and the path's post, and redirects to that post |
| Store.Blog.UpdateComment | blogicum/blog/views.py:163-166 | missing comment: 404; anyone but its author gets the default denial with nothing changed; a form without pub_date is shown again with nothing changed; otherwise the edited comment replaces the old one in place, and the redirect names the path's post |
| Store.Blog.DeleteComment | blogicum/blog/views.py:169-178 | missing comment: 404; anyone but its author gets the default denial with nothing changed; otherwise exactly that comment is removed |
| Store.Blog.EditProfile | blogicum/blog/views.py:199-209 | anonymous: login redirect; the user edited is always the acting user; on success the redirect names the new username |
| Store.Blog.DeleteUser | blogicum/blog/migrations/0003_comment.py:24-25 | the new state is the store after the user deletion, and it stays valid |

## Left out

- URL routing is left out: path parameters (`post_id`, `comment_id`, `username`, `category_slug`, `page`) are method and function arguments.
- Parsing the `page` query parameter is left out (`'last'`, non-numeric values); the page is an `int`.
- Authentication and sessions are left out: the acting user is `Option<UserId>`, and the login redirect is the `LoginRedirect` answer.
- Template rendering is left out, and so is showing a form on GET.
- The built-in error pages are left out; a refusal is only its `Response` value.
- The internals of PostForm and CommentForm (`forms.py`) are not part of this model. The post form checks only that a chosen category exists.
- CommentForm, which creation and editing share, is taken to carry `text`, `pub_date` and `is_published`, and to fail only when `pub_date` is missing. Creation checks the form before the post lookup, because Django calls `form_valid` only for a valid form. An omitted `is_published` takes the column default on creation and keeps the stored flag on an edit.
- The Location and image fields are opaque: `location` is an optional id with no table.
- Deleting a category (protect) and deleting a location (set null) are left out, because `models.py` is not part of this model.
- Deleting a user cascades to that user's posts as the documented Post relation says; that relation is declared in `models.py`, which is not part of this model.
- When two posts share a pub_date the database leaves their order unspecified; the model keeps table order.
- `timezone.now()` is the `now` parameter.
- Transactions, concurrency, `select_related` and the real ORM are left out; every method is one atomic step.
- Store.EditedPost: PostForm is taken to have no author field. `claimedAuthor` is client data the form ignores, so an edit cannot reassign a post to another author.
- Store.Blog.UpdateComment and Store.Blog.DeleteComment: the success redirect names the post in the path, which the source never checks against the comment's own post.
- Store.Blog.EditProfile: form validation is reduced to "the username is non-empty and belongs to no other user".
- The administrative actions other than deleting a user are left out, and so is registration.
