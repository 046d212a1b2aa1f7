# yatube posts: a verified model

A model of the `posts` app of yatube, a small Django blog: users write posts,
optionally in a community group and with an image; others comment on them and
follow authors; the home page, each group page and each profile list posts
newest first, a page at a time; a logged-in user's feed lists the posts of the
authors they follow.

The model has seven modules:

- `Wrappers` (`wrappers.dfy`) holds `Option`.
- `Constants` (`constants.dfy`) holds `Positive`, the type of the page size
  and of the display length of a post. Their values are not part of this
  model, so every result is proved for any positive value.
- `Seqs` (`seqs.dfy`) holds the queries the store is built from: `Filter`
  (an ORM `filter`, order kept) and `Find` (a `get`), with lemmas.
- `Models` (`models.dfy`) holds the schema from `posts/models.py`: rows as
  datatypes, `__str__`, the newest-first ordering, the database constraints
  (`Integrity`), and the `on_delete` rules as functions on the tables, with
  lemmas that each deletion keeps the constraints.
- `Paging` (`paging.dfy`) holds `get_page` from `posts/utils.py`, with the
  Django paginator's forgiving `get_page` lookup stated exactly.
- `Views` (`views.dfy`) holds the reading views (`index`, `group_posts`,
  `profile`, `post_detail`, `follow_index`) as functions of the tables. It
  also holds the follow-edge updates behind `profile_follow` and
  `profile_unfollow`, the profile's `following` flag and the feed.
- `Store` (`store.dfy`) holds class `Blog`. Its fields are the five tables and
  the id counters. Its methods are the writing views (`profile_follow`,
  `profile_unfollow`, `post_create`, `post_edit`, `add_comment`), account and
  group creation, and deletion with cascades. Each method keeps `Valid()`: the
  constraints, no doubled follow edge, and ids below their counters. Each
  method states its new tables through the pure functions.

A request is the viewer (`None` when anonymous), the path and the `page`
query parameter. `login_required` is the first branch of every writing view
and of `follow_index`. It sends an anonymous viewer to `LoginPage(path)`, the
login URL with the original path as `next`, and changes nothing. A timestamp
is a `now` parameter, because `pub_date` is set by the clock when a row is
created.

Behaviour that is easy to misread:

- **Out-of-range page numbers.** Django's `Paginator.get_page` serves the
  last page both for numbers past the end and for numbers below one, so page
  `0` or `-3` shows the last page. See `PageNumber` and
  `OutOfRangeIsLastPage`.
- **Unknown profile.** `profile` looks its user up without a 404 fallback. An
  unknown username is therefore an uncaught exception, which is a server
  error, not a 404. The follow views do use a 404 fallback.
- **Feed duplicates.** The feed is a join of posts with follow edges, so a
  post appears once per edge from the viewer to its author. The schema has no
  unique constraint on edges. `profile_follow` checks for an existing edge
  and for a self-follow before creating one. In the model, edges are created
  only through `profile_follow` and requests do not race, so no edge is ever
  doubled and no user follows themselves (`NoDuplicateEdges`, kept by
  `Blog.Valid`). The admin site, which also registers `Follow` and can
  create any edge, is left out. Under that invariant the
  feed is a plain filter (`FeedIsFilter`).
- **The publication-date base model.** `posts/models.py` imports
  `PubDateModel` from `core/models.py`, which defines
  `TextAndPubDateModel`. The model takes the evident intent: `Post` and
  `Comment` carry a creation timestamp set once, plus their own `text`.

## Model

| member | source | states |
|---|---|---|
| Models.PostStr | yatube/posts/models.py:46-47 | a post's display string is the prefix of its text of length min(len, limit); a short text is shown whole |
| Models.GroupStr | yatube/posts/models.py:68-69 | a group is displayed as its title |
| Models.InsertNewestFirst | yatube/posts/models.py:41-42 | a new row joins the listing as a permutation of old rows plus it, and goes first when no row is newer |
| Models.InsertKeepsNewestFirst | yatube/posts/models.py:41-42 | inserting keeps the table ordered by `-pub_date` |
| Models.InsertKeepsUnique | yatube/posts/models.py:10-14 | a post inserted under a fresh id keeps ids unique and adds exactly its id |
| Models.FilterInsert | yatube/posts/models.py:41-42 | any filtered listing after an insertion is the old filtered listing with the post inserted when it passes the filter, else unchanged |
| Models.UsersWithout | yatube/posts/models.py:20-25 | deleting a user leaves exactly the other users |
| Models.PostsNotBy | yatube/posts/models.py:20-25 | CASCADE from `Post.author`: exactly the posts by other users remain |
| Models.CommentsSurvivingUser | yatube/posts/models.py:74-86 | CASCADE from `Comment.author` and, via deleted posts, from `Comment.post`: exactly the comments neither by the user nor on the user's posts remain |
| Models.EdgesAvoiding | yatube/posts/models.py:96-108 | CASCADE from `Follow.user` and `Follow.author`: exactly the edges not touching the user remain |
| Models.DeleteUserKeepsIntegrity | yatube/posts/models.py:20-25 | deleting a user with its cascades keeps unique keys, every foreign key resolvable and the newest-first order |
| Models.GroupsWithout | yatube/posts/models.py:50-69 | deleting a group leaves exactly the other groups |
| Models.ClearGroup | yatube/posts/models.py:26-34 | SET_NULL from `Post.group`: every post stays in place with every field; exactly the group's posts get a null group |
| Models.DeleteGroupKeepsIntegrity | yatube/posts/models.py:26-34 | deleting a group and nulling its posts' group keeps the constraints |
| Models.PostsWithout | yatube/posts/models.py:10-47 | deleting a post leaves exactly the other posts |
| Models.CommentsNotOn | yatube/posts/models.py:74-79 | CASCADE from `Comment.post`: exactly the comments on other posts remain |
| Models.DeletePostKeepsIntegrity | yatube/posts/models.py:74-79 | deleting a post with its comments keeps the constraints |
| Paging.NumPages | yatube/posts/utils.py:9 | the page count is the least n >= 1 with n pages holding max(1, count) items |
| Paging.PageNumber | yatube/posts/utils.py:10-11 | absent or non-integer page parameter gives page 1; an in-range number gives itself; below 1 or past the end gives the last page |
| Paging.GetPage | yatube/posts/utils.py:6-13 | the page is the contiguous slice of the list starting at (number-1)*perPage, full before the last page, reaching the end on the last |
| Paging.PageItemAt | yatube/posts/utils.py:6-13 | item i of a page is list item (number-1)*perPage+i |
| Paging.PageNeighbours | yatube/posts/utils.py:11 | a page has a next page exactly when items follow it in the list, and a previous page exactly when items precede it |
| Paging.AbsentIsFirstPage | yatube/posts/utils.py:10-11 | without a page parameter the first perPage items (or all) are served |
| Paging.SecondPageRemainder | yatube/posts/utils.py:6-13 | with perPage < N <= 2*perPage, page 2 holds exactly the N-perPage items page 1 left over |
| Paging.LastPageSize | yatube/posts/utils.py:6-13 | the last page of N > 0 items holds N mod perPage items, or perPage when that is 0 |
| Paging.OutOfRangeIsLastPage | yatube/posts/utils.py:10-11 | a page number below 1 or past the end is served the last page |
| Paging.PagesCoverList | yatube/posts/utils.py:6-13 | pages 1..last read in order give back the whole list, each item once |
| Views.FindUser | yatube/posts/views.py:171 | the username lookup returns a user with that name, and fails exactly when none has it |
| Views.FindGroup | yatube/posts/views.py:29 | the slug lookup returns a group with that slug, and fails exactly when none has it |
| Views.FindPost | yatube/posts/views.py:68-73 | the id lookup returns a post with that id, and fails exactly when the id is absent |
| Views.FindGroupUnique | yatube/posts/models.py:60-63 | slugs being unique, the slug lookup returns the one group with that slug |
| Views.Select | yatube/posts/views.py:16 | a listing holds exactly the posts it shows (all, the group's, the author's), and only those |
| Views.AllPostsIsTable | yatube/posts/views.py:16 | the home page lists the whole post table in its order |
| Views.SelectNewestFirst | yatube/posts/views.py:30 | group and profile listings are newest first |
| Views.NewPostHeadsListing | yatube/posts/views.py:46 | a newest post heads every listing that shows it and leaves the others unchanged |
| Views.NewPostFirstOnPage | yatube/posts/views.py:11-47 | a post newer than all others is item 0 of page 1 of every listing that shows it |
| Views.NewGroupedPostFirstEverywhere | yatube/posts/views.py:11-47 | a new post in group g is item 0 of page 1 of the home page, of g's page and of its author's profile, and absent from any other group |
| Views.Subscribe | yatube/posts/views.py:172-176 | following adds the edge unless self-follow or already present; only that edge's count changes, by at most one; no duplicate is created |
| Views.SubscribeIdempotent | yatube/posts/views.py:172-176 | following twice equals following once |
| Views.Unsubscribe | yatube/posts/views.py:187 | unfollowing leaves no edge from user to author and keeps every other edge |
| Views.UnsubscribeCounts | yatube/posts/views.py:187 | every copy of the edge is deleted; every other edge keeps its multiplicity |
| Views.UnsubscribeAbsent | yatube/posts/views.py:187 | unfollowing an author not followed changes nothing |
| Views.UnsubscribeNoDuplicates | yatube/posts/views.py:187 | unfollowing keeps the edge table free of duplicates |
| Views.UnsubscribeUndoesSubscribe | yatube/posts/views.py:172-187 | following then unfollowing a not-followed author restores the edge table exactly |
| Views.FollowingFlag | yatube/posts/views.py:49-53 | the profile's `following` flag is set exactly when there is an edge from the logged-in viewer to the author that is not a self-edge |
| Views.FollowingTracksSubscriptions | yatube/posts/views.py:49-53 | the profile's `following` flag is set after following another user, clear after unfollowing, never set for oneself or an anonymous viewer |
| Views.Feed | yatube/posts/views.py:158 | the feed holds exactly the posts whose author the user follows |
| Views.FeedIsFilter | yatube/posts/views.py:158 | without doubled edges the feed join is the newest-first filter by followed author |
| Views.NewPostInFollowersFeed | yatube/posts/views.py:158 | a new post heads the feed of each follower of its author and leaves other feeds unchanged |
| Views.FeedTracksSubscriptions | yatube/posts/views.py:158 | after unfollowing an author none of their posts is in the feed; after following, all are |
| Views.Index | yatube/posts/views.py:11-22 | the home page renders the requested page of all posts |
| Views.GroupPosts | yatube/posts/views.py:25-38 | 404 exactly for an unknown slug; otherwise that group and the requested page of its posts |
| Views.Profile | yatube/posts/views.py:41-61 | server error exactly for an unknown username; otherwise the author, the requested page of their posts and the `following` flag |
| Views.PostDetail | yatube/posts/views.py:64-82 | 404 exactly for an unknown id; otherwise the post and exactly its comments |
| Views.FollowIndex | yatube/posts/views.py:152-164 | an anonymous viewer is sent to login; a logged-in one gets the requested page of their feed |
| Store.PostFormValid | yatube/posts/views.py:94 | the post form validates exactly when the text is non-empty and a chosen group is an existing group (also used at views.py:123) |
| Store.NewPost | yatube/posts/views.py:94-97 | the created post has the form's fields, the viewer as author and the current time |
| Store.EditedPost | yatube/posts/views.py:118-125 | an edit replaces text and group, replaces the image only when a file is uploaded, keeps id, author and date |
| Store.EditPosts | yatube/posts/views.py:118-125 | the edit changes only the post with that id, in place; every row keeps id, author and date |
| Store.CreatePostKeepsIntegrity | yatube/posts/views.py:94-97 | a new post by an existing user in an existing group (or none) keeps the constraints |
| Store.EditKeepsIntegrity | yatube/posts/views.py:123-125 | saving an edit with a valid group keeps the constraints |
| Store.EditMovesOnlyThePost | yatube/posts/views.py:123-125 | after an edit the post is in a group listing exactly when its new group is that group, stays on the home page and its profile, and no other post changes listing |
| Store.AddCommentKeepsIntegrity | yatube/posts/views.py:143-147 | a comment under a fresh id on an existing post by an existing user keeps the constraints |
| Store.NewCommentShownLast | yatube/posts/views.py:75 | a new comment is shown on its post's page after the comments already there |
| Store.SubscribeKeepsIntegrity | yatube/posts/views.py:176 | an edge between existing users keeps the constraints |
| Store.UnsubscribeKeepsIntegrity | yatube/posts/views.py:187 | removing edges keeps the constraints and no-duplicates |
| Store.EdgesAvoidingNoDuplicates | yatube/posts/models.py:96-108 | the follow-edge cascade keeps the table free of duplicates |
| Store.AddUserKeepsIntegrity | yatube/posts/models.py:7 | an account with a fresh id and unused username keeps the constraints |
| Store.AddGroupKeepsIntegrity | yatube/posts/models.py:60-63 | a group with a fresh id and unused slug keeps the constraints |
| Store.Blog.constructor | yatube/posts/models.py:10-108 | an empty database satisfies the constraints |
| Store.Blog.AddUser | yatube/posts/models.py:7 | a taken username stores nothing; otherwise one account under the next id is appended |
| Store.Blog.AddGroup | yatube/posts/models.py:60-63 | a taken slug stores nothing; otherwise one group under the next id is appended |
| Store.Blog.ProfileFollow | yatube/posts/views.py:167-178 | login redirect for anonymous; 404 for unknown username; otherwise edges become Subscribe(...) and the viewer is sent to the profile; other tables unchanged |
| Store.Blog.ProfileUnfollow | yatube/posts/views.py:181-189 | login redirect for anonymous; 404 for unknown username; otherwise edges become Unsubscribe(...) and the viewer is sent to the profile |
| Store.Blog.PostCreate | yatube/posts/views.py:85-105 | login redirect for anonymous; a valid form inserts NewPost newest first under the next id and redirects to the viewer's profile; otherwise renders the empty form, nothing stored |
| Store.Blog.PostEdit | yatube/posts/views.py:108-135 | login redirect; 404 for unknown id; non-author sent to the post page unchanged; valid form applies EditPosts and redirects to the post; otherwise renders the form for the post |
| Store.Blog.AddComment | yatube/posts/views.py:138-149 | login redirect; 404 for unknown post; non-empty text appends one comment by the viewer under the next id; either way redirect to the post |
| Store.Blog.DeleteUser | yatube/posts/models.py:20-108 | deleting a user applies all four cascades and keeps `Valid()` |
| Store.Blog.DeleteGroup | yatube/posts/models.py:26-34 | deleting a group nulls its posts' group and keeps `Valid()` |
| Store.Blog.DeletePost | yatube/posts/models.py:74-79 | deleting a post removes its comments and keeps `Valid()` |

## Left out

- The cache on `index` (`cache_page`) is left out. A cached home page can be
  stale by up to the cache lifetime, and the model always shows the current
  table.
- Templates, HTTP status codes other than redirect/404/500, URL reversing and
  the custom error pages are left out. A response is modelled as the
  rendered context or the redirect target.
- Parsing the `page` parameter is left out. The model receives it already
  classified as absent, not an integer, or a number (`PageQuery`).
- Form cleaning is simplified. A text is required after the form has
  stripped whitespace; the model receives the cleaned text and requires it
  to be non-empty. The image field's upload validation, file storage and
  "clear" checkbox are left out. An image is its file name, `""` for none.
- Django's login system, sessions and the `users` app are not part of this
  model. The session's user is assumed to be an existing account
  (`KnownViewer`).
- Field length and character rules are not enforced: title `max_length`,
  slug characters and length.
- The admin site, `about` and `core` views, and verbose names are not part of
  this model.
- Concurrency and the admin site's writes are left out. Two racing follow
  requests could both pass the existence check and double an edge, and the
  admin site can create a duplicate or a self-follow edge directly. The model
  runs requests one at a time and creates edges only through
  `profile_follow`, which is why `NoDuplicateEdges` holds.
- The order of posts with equal `pub_date` is left open by the database. The
  model puts a new post before older posts with the same date.
- Store.NewCommentShownLast: the model lists a post's comments in insertion
  order. The source declares no ordering for comments, so the database may
  return them in any order; the lemma states the model's choice, not a
  promise of the program.
