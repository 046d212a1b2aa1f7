/**
 * What the posts app's views read from the store: the listings (home page,
 * group page, profile page, followed-authors feed, post detail), the
 * `following` flag of a profile, and the follow-edge table that the follow
 * and unfollow views change. The views that write are methods of
 * `Store.Blog`; the ones here only read, so they are functions of the rows.
 */
module Views {
  import opened Wrappers
  import opened Constants
  import opened Models
  import opened Paging
  import Seqs

  /**
   * A request as a view sees it: the logged-in user (None for an anonymous
   * visitor), the full path that was asked for, query string included (it
   * becomes the login redirect's `next` parameter as it is), and the `page`
   * query parameter.
   */
  datatype Request = Request(viewer: Option<User>, path: string, page: PageQuery)

  /**
   * Where a redirect sends the browser: the login page with the original
   * path as its `next` parameter, a user's profile, or a post's detail page.
   */
  datatype Target = LoginPage(next: string) | ProfilePage(username: string) | PostDetailPage(id: PostId)

  /** What a rendered page shows. */
  datatype Context =
    | ListContext(page: Page<Post>)
    | GroupContext(group: Group, page: Page<Post>)
    | ProfileContext(author: User, page: Page<Post>, following: bool)
    | DetailContext(post: Post, comments: seq<Comment>)
    | FormContext(editing: Option<Post>)

  /** An uncaught lookup failure is a server error, not a 404. */
  datatype Response = Render(context: Context) | Redirect(target: Target) | NotFound | ServerError

  // ---------------------------------------------------------------------
  // Lookups

  function FindUser(users: seq<User>, username: string): (r: Option<User>)
    ensures r.Some? ==> r.value in users && r.value.username == username
    ensures r.None? <==> forall u | u in users :: u.username != username
  {
    Seqs.Find(users, (u: User) => u.username == username)
  }

  function FindGroup(groups: seq<Group>, slug: string): (r: Option<Group>)
    ensures r.Some? ==> r.value in groups && r.value.slug == slug
    ensures r.None? <==> forall g | g in groups :: g.slug != slug
  {
    Seqs.Find(groups, (g: Group) => g.slug == slug)
  }

  function FindPost(posts: seq<Post>, id: PostId): (r: Option<Post>)
    ensures r.Some? ==> r.value in posts && r.value.id == id
    ensures r.None? <==> id !in PostIds(posts)
  {
    Seqs.Find(posts, (p: Post) => p.id == id)
  }

  /** Slugs are unique, so a slug names at most one group, and the lookup finds that one. */
  lemma FindGroupUnique(groups: seq<Group>, g: Group)
    requires UniqueGroups(groups) && g in groups
    ensures FindGroup(groups, g.slug) == Some(g)
  {
    var r := FindGroup(groups, g.slug);
    var i :| 0 <= i < |groups| && groups[i] == g;
    var j :| 0 <= j < |groups| && groups[j] == r.value;
    assert i == j;
  }

  // ---------------------------------------------------------------------
  // Listings: one filter over the newest-first post table

  /** The home page lists every post; a group page those of the group; a profile those of the author. */
  datatype Listing = AllPosts | InGroup(group: GroupId) | ByAuthor(author: UserId)

  predicate Shows(l: Listing, p: Post) {
    match l
    case AllPosts => true
    case InGroup(g) => p.group == Some(g)
    case ByAuthor(a) => p.author == a
  }

  function ShownBy(l: Listing): Post -> bool {
    (p: Post) => Shows(l, p)
  }

  /** The posts a listing shows, in table order. */
  function Select(posts: seq<Post>, l: Listing): (r: seq<Post>)
    ensures forall p | p in r :: p in posts && Shows(l, p)
    ensures forall p | p in posts && Shows(l, p) :: p in r
  {
    Seqs.Filter(posts, ShownBy(l))
  }

  /** The home page's listing is the whole table. */
  lemma AllPostsIsTable(posts: seq<Post>)
    ensures Select(posts, AllPosts) == posts
  {
    Seqs.FilterAll(posts, ShownBy(AllPosts));
  }

  /** Every listing is newest first. */
  lemma SelectNewestFirst(posts: seq<Post>, l: Listing)
    requires NewestFirst(posts)
    ensures NewestFirst(Select(posts, l))
  {
    Seqs.FilterKeepsPairwise(posts, ShownBy(l), (a: Post, b: Post) => a.pubDate >= b.pubDate);
  }

  /**
   * A post newer than every other goes to the head of every listing that
   * shows it and leaves the others as they were.
   */
  lemma NewPostHeadsListing(posts: seq<Post>, p: Post, l: Listing)
    requires NewestFirst(posts)
    requires forall q | q in posts :: q.pubDate <= p.pubDate
    ensures Select(InsertNewestFirst(posts, p), l) == if Shows(l, p) then [p] + Select(posts, l) else Select(posts, l)
  {
    FilterInsert(posts, p, ShownBy(l));
  }

  /** A post newer than every other is the first item of the first page of every listing that shows it. */
  lemma NewPostFirstOnPage(posts: seq<Post>, p: Post, l: Listing, perPage: Positive)
    requires NewestFirst(posts)
    requires forall q | q in posts :: q.pubDate <= p.pubDate
    requires Shows(l, p)
    ensures GetPage(Select(InsertNewestFirst(posts, p), l), Absent, perPage).items[0] == p
  {
    var listed := Select(InsertNewestFirst(posts, p), l);
    NewPostHeadsListing(posts, p, l);
    AbsentIsFirstPage(listed, perPage);
    assert listed[0] == p;
  }

  /**
   * A new post in group `g` is the first item of the first page of the home
   * page, of `g`'s page and of its author's profile, and is on no page of
   * any other group.
   */
  lemma NewGroupedPostFirstEverywhere(posts: seq<Post>, p: Post, g: GroupId, other: GroupId, perPage: Positive)
    requires NewestFirst(posts)
    requires forall q | q in posts :: q.pubDate <= p.pubDate
    requires p.group == Some(g) && other != g
    ensures GetPage(Select(InsertNewestFirst(posts, p), AllPosts), Absent, perPage).items[0] == p
    ensures GetPage(Select(InsertNewestFirst(posts, p), InGroup(g)), Absent, perPage).items[0] == p
    ensures GetPage(Select(InsertNewestFirst(posts, p), ByAuthor(p.author)), Absent, perPage).items[0] == p
    ensures p !in Select(InsertNewestFirst(posts, p), InGroup(other))
  {
    NewPostFirstOnPage(posts, p, AllPosts, perPage);
    NewPostFirstOnPage(posts, p, InGroup(g), perPage);
    NewPostFirstOnPage(posts, p, ByAuthor(p.author), perPage);
  }

  // ---------------------------------------------------------------------
  // Follow edges

  predicate IsFollowing(follows: seq<Follow>, user: UserId, author: UserId) {
    Follow(user, author) in follows
  }

  /** No edge is stored twice: what the follow view's guard keeps when requests do not race. */
  predicate NoDuplicateEdges(follows: seq<Follow>) {
    forall e | e in follows :: multiset(follows)[e] <= 1
  }

  /**
   * The edge table after `user` asks to follow `author`: one new edge,
   * unless that would be a self-follow or the edge is already there.
   */
  function Subscribe(follows: seq<Follow>, user: UserId, author: UserId): (r: seq<Follow>)
    ensures user != author ==> IsFollowing(r, user, author)
    ensures user == author || IsFollowing(follows, user, author) ==> r == follows
    ensures forall e | e != Follow(user, author) :: multiset(r)[e] == multiset(follows)[e]
    ensures multiset(r)[Follow(user, author)] <= multiset(follows)[Follow(user, author)] + 1
    ensures NoDuplicateEdges(follows) ==> NoDuplicateEdges(r)
  {
    if user == author || IsFollowing(follows, user, author) then follows
    else follows + [Follow(user, author)]
  }

  /** Asking to follow twice is the same as asking once. */
  lemma SubscribeIdempotent(follows: seq<Follow>, user: UserId, author: UserId)
    ensures Subscribe(Subscribe(follows, user, author), user, author) == Subscribe(follows, user, author)
  {
  }

  function NotEdge(user: UserId, author: UserId): Follow -> bool {
    (e: Follow) => e != Follow(user, author)
  }

  /** The edge table after `user` unfollows `author`: every such edge deleted. */
  function Unsubscribe(follows: seq<Follow>, user: UserId, author: UserId): (r: seq<Follow>)
    ensures !IsFollowing(r, user, author)
    ensures forall e | e in follows && e != Follow(user, author) :: e in r
    ensures forall e | e in r :: e in follows
  {
    Seqs.Filter(follows, NotEdge(user, author))
  }

  /** Unfollowing deletes every copy of the edge and keeps every other edge as often as it was there. */
  lemma UnsubscribeCounts(follows: seq<Follow>, user: UserId, author: UserId, e: Follow)
    ensures multiset(Unsubscribe(follows, user, author))[e]
         == if e == Follow(user, author) then 0 else multiset(follows)[e]
  {
    Seqs.FilterCount(follows, NotEdge(user, author), e);
  }

  /** Unfollowing an author one does not follow changes nothing. */
  lemma UnsubscribeAbsent(follows: seq<Follow>, user: UserId, author: UserId)
    requires !IsFollowing(follows, user, author)
    ensures Unsubscribe(follows, user, author) == follows
  {
    Seqs.FilterAll(follows, NotEdge(user, author));
  }

  /** Unfollowing keeps the table free of duplicates. */
  lemma UnsubscribeNoDuplicates(follows: seq<Follow>, user: UserId, author: UserId)
    requires NoDuplicateEdges(follows)
    ensures NoDuplicateEdges(Unsubscribe(follows, user, author))
  {
    forall e | e in Unsubscribe(follows, user, author)
      ensures multiset(Unsubscribe(follows, user, author))[e] <= 1
    {
      UnsubscribeCounts(follows, user, author, e);
    }
  }

  /** Following and then unfollowing an author one did not follow restores the table. */
  lemma UnsubscribeUndoesSubscribe(follows: seq<Follow>, user: UserId, author: UserId)
    requires !IsFollowing(follows, user, author)
    ensures Unsubscribe(Subscribe(follows, user, author), user, author) == follows
  {
    UnsubscribeAbsent(follows, user, author);
    if user != author {
      Seqs.FilterAppend(follows, [Follow(user, author)], NotEdge(user, author));
      Seqs.FilterCons(Follow(user, author), [], NotEdge(user, author));
    }
  }

  /**
   * The `following` flag of a profile page: the viewer is logged in, is not
   * the author, and follows the author.
   */
  function FollowingFlag(follows: seq<Follow>, viewer: Option<User>, author: User): (r: bool)
    ensures r <==> exists e | e in follows :: viewer.Some? && e == Follow(viewer.value.id, author.id) && e.user != e.author
  {
    viewer.Some? && viewer.value.id != author.id && IsFollowing(follows, viewer.value.id, author.id)
  }

  /**
   * The flag follows the follow and unfollow views: after following someone
   * else it is set, after unfollowing it is clear, and nobody follows
   * themselves or is followed by an anonymous visitor.
   */
  lemma FollowingTracksSubscriptions(follows: seq<Follow>, viewer: User, author: User)
    ensures viewer.id != author.id ==> FollowingFlag(Subscribe(follows, viewer.id, author.id), Some(viewer), author)
    ensures !FollowingFlag(Unsubscribe(follows, viewer.id, author.id), Some(viewer), author)
    ensures !FollowingFlag(follows, Some(author), author)
    ensures !FollowingFlag(follows, None, author)
  {
  }

  // ---------------------------------------------------------------------
  // The followed-authors feed

  function Repeat<T>(x: T, n: nat): (r: seq<T>)
    ensures |r| == n
    ensures forall y | y in r :: y == x
  {
    seq(n, _ => x)
  }

  /**
   * The feed of `user`: the post table joined with the edges from `user` to
   * each post's author, so a post appears once per such edge.
   */
  function Feed(posts: seq<Post>, follows: seq<Follow>, user: UserId): (r: seq<Post>)
    ensures forall p | p in r :: p in posts && IsFollowing(follows, user, p.author)
    ensures forall p | p in posts && IsFollowing(follows, user, p.author) :: p in r
    decreases |posts|
  {
    if posts == [] then []
    else
      var rest := Feed(posts[1..], follows, user);
      assert forall p | p in posts[1..] :: p in posts;
      assert forall p | p in posts && p != posts[0] :: p in posts[1..];
      var head := Repeat(posts[0], multiset(follows)[Follow(user, posts[0].author)]);
      assert IsFollowing(follows, user, posts[0].author) ==> head[0] == posts[0];
      head + rest
  }

  function FollowedBy(follows: seq<Follow>, user: UserId): Post -> bool {
    (p: Post) => IsFollowing(follows, user, p.author)
  }

  /** Without duplicate edges the join is a plain filter: each followed author's posts once. */
  lemma {:induction false} FeedIsFilter(posts: seq<Post>, follows: seq<Follow>, user: UserId)
    requires NoDuplicateEdges(follows)
    ensures Feed(posts, follows, user) == Seqs.Filter(posts, FollowedBy(follows, user))
    decreases |posts|
  {
    if posts != [] {
      FeedIsFilter(posts[1..], follows, user);
      var n := multiset(follows)[Follow(user, posts[0].author)];
      assert n == if IsFollowing(follows, user, posts[0].author) then 1 else 0;
      assert Repeat(posts[0], n) == if IsFollowing(follows, user, posts[0].author) then [posts[0]] else [];
    }
  }

  /**
   * A new post reaches the head of the feed of each of its author's
   * followers and leaves every other feed as it was.
   */
  lemma NewPostInFollowersFeed(posts: seq<Post>, follows: seq<Follow>, p: Post, user: UserId)
    requires NewestFirst(posts) && NoDuplicateEdges(follows)
    requires forall q | q in posts :: q.pubDate <= p.pubDate
    ensures Feed(InsertNewestFirst(posts, p), follows, user)
         == if IsFollowing(follows, user, p.author) then [p] + Feed(posts, follows, user) else Feed(posts, follows, user)
  {
    FeedIsFilter(posts, follows, user);
    FeedIsFilter(InsertNewestFirst(posts, p), follows, user);
    FilterInsert(posts, p, FollowedBy(follows, user));
  }

  /** After unfollowing an author, none of the author's posts is in the feed; after following, all are. */
  lemma FeedTracksSubscriptions(posts: seq<Post>, follows: seq<Follow>, user: UserId, author: UserId)
    ensures forall p | p in Feed(posts, Unsubscribe(follows, user, author), user) :: p.author != author
    ensures user != author ==>
      forall p | p in posts && p.author == author :: p in Feed(posts, Subscribe(follows, user, author), user)
  {
  }

  // ---------------------------------------------------------------------
  // The reading views

  /** index: a page of all posts. */
  function Index(posts: seq<Post>, req: Request, perPage: Positive): (r: Response)
    ensures r.Render? && r.context.ListContext?
    ensures r.context.page == GetPage(Select(posts, AllPosts), req.page, perPage)
  {
    AllPostsIsTable(posts);
    Render(ListContext(GetPage(posts, req.page, perPage)))
  }

  /** group_posts: 404 for an unknown slug, otherwise a page of that group's posts. */
  function GroupPosts(groups: seq<Group>, posts: seq<Post>, slug: string, req: Request, perPage: Positive): (r: Response)
    ensures r.NotFound? <==> forall g | g in groups :: g.slug != slug
    ensures !r.NotFound? ==>
      && r.Render? && r.context.GroupContext?
      && r.context.group in groups && r.context.group.slug == slug
      && r.context.page == GetPage(Select(posts, InGroup(r.context.group.id)), req.page, perPage)
  {
    match FindGroup(groups, slug)
    case None => NotFound
    case Some(g) => Render(GroupContext(g, GetPage(Select(posts, InGroup(g.id)), req.page, perPage)))
  }

  /**
   * profile: the user is fetched without a 404 fallback, so an unknown
   * username is a server error; otherwise a page of the author's posts and
   * the `following` flag.
   */
  function Profile(users: seq<User>, posts: seq<Post>, follows: seq<Follow>, username: string, req: Request, perPage: Positive): (r: Response)
    ensures r.ServerError? <==> forall u | u in users :: u.username != username
    ensures !r.ServerError? ==>
      && r.Render? && r.context.ProfileContext?
      && r.context.author in users && r.context.author.username == username
      && r.context.page == GetPage(Select(posts, ByAuthor(r.context.author.id)), req.page, perPage)
      && r.context.following == FollowingFlag(follows, req.viewer, r.context.author)
  {
    match FindUser(users, username)
    case None => ServerError
    case Some(author) =>
      Render(ProfileContext(author, GetPage(Select(posts, ByAuthor(author.id)), req.page, perPage),
                            FollowingFlag(follows, req.viewer, author)))
  }

  /** post_detail: 404 for an unknown id, otherwise the post and its comments. */
  function PostDetail(posts: seq<Post>, comments: seq<Comment>, id: PostId): (r: Response)
    ensures r.NotFound? <==> id !in PostIds(posts)
    ensures !r.NotFound? ==>
      && r.Render? && r.context.DetailContext?
      && r.context.post in posts && r.context.post.id == id
      && (forall c | c in r.context.comments :: c in comments && c.post == id)
      && (forall c | c in comments && c.post == id :: c in r.context.comments)
  {
    match FindPost(posts, id)
    case None => NotFound
    case Some(p) => Render(DetailContext(p, Seqs.Filter(comments, OnPost(id))))
  }

  function OnPost(id: PostId): Comment -> bool {
    (c: Comment) => c.post == id
  }

  /** follow_index: login required; a page of the viewer's feed. */
  function FollowIndex(posts: seq<Post>, follows: seq<Follow>, req: Request, perPage: Positive): (r: Response)
    ensures req.viewer.None? <==> r == Redirect(LoginPage(req.path))
    ensures req.viewer.Some? ==>
      r.Render? && r.context.ListContext?
      && r.context.page == GetPage(Feed(posts, follows, req.viewer.value.id), req.page, perPage)
  {
    if req.viewer.None? then Redirect(LoginPage(req.path))
    else Render(ListContext(GetPage(Feed(posts, follows, req.viewer.value.id), req.page, perPage)))
  }
}
