/**
 * The posts app's schema: users, groups, posts, comments and follow edges as
 * rows; the display strings of posts and groups; the newest-first order in
 * which posts are listed; the constraints the database keeps; and what
 * deleting a row does to the rows that refer to it.
 */
module Models {
  import opened Wrappers
  import opened Constants
  import Seqs

  type UserId = nat
  type GroupId = nat
  type PostId = nat
  type CommentId = nat

  /** An account of the authentication system; usernames are unique. */
  datatype User = User(id: UserId, username: string)

  /** A community, created by an administrator; slugs are unique. */
  datatype Group = Group(id: GroupId, title: string, slug: string, description: string)

  /**
   * A post. Its author is required, its group may be null, and its image may
   * be blank (the empty file name). `pubDate` is set once, when the row is
   * created.
   */
  datatype Post = Post(id: PostId, text: string, pubDate: int, author: UserId, group: Option<GroupId>, image: string)

  /** A comment on exactly one post, by exactly one user. */
  datatype Comment = Comment(id: CommentId, post: PostId, author: UserId, text: string, pubDate: int)

  /** A directed edge: `user` follows `author`. The schema does not forbid equal edges. */
  datatype Follow = Follow(user: UserId, author: UserId)

  // ---------------------------------------------------------------------
  // Display strings

  /** A post is shown as the first `maxLength` characters of its text. */
  function PostStr(p: Post, maxLength: Positive): (s: string)
    ensures s <= p.text
    ensures |s| == if |p.text| < maxLength then |p.text| else maxLength
    ensures |p.text| <= maxLength ==> s == p.text
  {
    if |p.text| <= maxLength then p.text else p.text[..maxLength]
  }

  /** A group is shown as its title. */
  function GroupStr(g: Group): (s: string)
    ensures s == g.title
  {
    g.title
  }

  // ---------------------------------------------------------------------
  // Ordering: posts are listed by publication date, newest first

  predicate NewestFirst(posts: seq<Post>) {
    forall i, j | 0 <= i < j < |posts| :: posts[i].pubDate >= posts[j].pubDate
  }

  /**
   * Where a new row lands in the newest-first listing: before the first post
   * that is not newer than it. The database leaves the order of posts with
   * equal dates open; this model puts the new post first among them.
   */
  function InsertNewestFirst(posts: seq<Post>, p: Post): (r: seq<Post>)
    ensures multiset(r) == multiset(posts) + multiset{p}
    ensures |r| == |posts| + 1
    ensures (forall q | q in posts :: q.pubDate <= p.pubDate) ==> r == [p] + posts
    decreases |posts|
  {
    if posts == [] || posts[0].pubDate <= p.pubDate then [p] + posts
    else
      assert posts == [posts[0]] + posts[1..];
      [posts[0]] + InsertNewestFirst(posts[1..], p)
  }

  lemma NewestFirstTail(posts: seq<Post>)
    requires NewestFirst(posts) && posts != []
    ensures NewestFirst(posts[1..])
    ensures forall q | q in posts[1..] :: q.pubDate <= posts[0].pubDate
  {
    var t := posts[1..];
    forall i, j | 0 <= i < j < |t| ensures t[i].pubDate >= t[j].pubDate {
      assert t[i] == posts[i + 1] && t[j] == posts[j + 1];
    }
    forall q | q in t ensures q.pubDate <= posts[0].pubDate {
      var k :| 0 <= k < |t| && t[k] == q;
      assert posts[k + 1] == q;
    }
  }

  lemma NewestFirstCons(h: Post, rest: seq<Post>)
    requires NewestFirst(rest)
    requires forall q | q in rest :: q.pubDate <= h.pubDate
    ensures NewestFirst([h] + rest)
  {
    var r := [h] + rest;
    forall i, j | 0 <= i < j < |r| ensures r[i].pubDate >= r[j].pubDate {
      if i == 0 {
        assert r[j] == rest[j - 1];
      } else {
        assert r[i] == rest[i - 1] && r[j] == rest[j - 1];
      }
    }
  }

  /** Inserting a new post keeps the listing newest-first. */
  lemma {:induction false} InsertKeepsNewestFirst(posts: seq<Post>, p: Post)
    requires NewestFirst(posts)
    ensures NewestFirst(InsertNewestFirst(posts, p))
    decreases |posts|
  {
    if posts == [] || posts[0].pubDate <= p.pubDate {
      if posts != [] {
        NewestFirstTail(posts);
      }
      NewestFirstCons(p, posts);
    } else {
      NewestFirstTail(posts);
      InsertKeepsNewestFirst(posts[1..], p);
      var rest := InsertNewestFirst(posts[1..], p);
      forall q | q in rest ensures q.pubDate <= posts[0].pubDate {
        assert q in multiset(rest);
      }
      NewestFirstCons(posts[0], rest);
    }
  }

  lemma UniquePostsTail(posts: seq<Post>)
    requires UniquePosts(posts) && posts != []
    ensures UniquePosts(posts[1..])
    ensures posts[0].id !in PostIds(posts[1..])
  {
    var t := posts[1..];
    forall i, j | 0 <= i < j < |t| ensures t[i].id != t[j].id {
      assert t[i] == posts[i + 1] && t[j] == posts[j + 1];
    }
    forall k | 0 <= k < |t| ensures t[k].id != posts[0].id {
      assert t[k] == posts[k + 1];
    }
  }

  lemma UniquePostsCons(h: Post, rest: seq<Post>)
    requires UniquePosts(rest) && h.id !in PostIds(rest)
    ensures UniquePosts([h] + rest)
  {
    var r := [h] + rest;
    forall i, j | 0 <= i < j < |r| ensures r[i].id != r[j].id {
      assert r[j] == rest[j - 1];
      if i == 0 {
        assert rest[j - 1] in rest;
      } else {
        assert r[i] == rest[i - 1];
      }
    }
  }

  /** A post inserted under a fresh id keeps post ids unique, and adds exactly its id. */
  lemma {:induction false} InsertKeepsUnique(posts: seq<Post>, p: Post)
    requires UniquePosts(posts) && p.id !in PostIds(posts)
    ensures UniquePosts(InsertNewestFirst(posts, p))
    ensures PostIds(InsertNewestFirst(posts, p)) == PostIds(posts) + {p.id}
    decreases |posts|
  {
    var r := InsertNewestFirst(posts, p);
    forall q | q in r ensures q in posts || q == p {
      assert q in multiset(r);
    }
    forall q | q in posts || q == p ensures q in r {
      assert q in multiset(r);
    }
    if posts == [] || posts[0].pubDate <= p.pubDate {
      UniquePostsCons(p, posts);
    } else {
      UniquePostsTail(posts);
      InsertKeepsUnique(posts[1..], p);
      UniquePostsCons(posts[0], InsertNewestFirst(posts[1..], p));
    }
  }

  /**
   * Filtering commutes with inserting a new post: a listing of the store
   * after the insertion is the old listing with the post inserted when the
   * listing shows it, and the old listing otherwise.
   */
  lemma {:induction false} FilterInsert(posts: seq<Post>, p: Post, keep: Post -> bool)
    requires NewestFirst(posts)
    ensures Seqs.Filter(InsertNewestFirst(posts, p), keep)
         == if keep(p) then InsertNewestFirst(Seqs.Filter(posts, keep), p) else Seqs.Filter(posts, keep)
    decreases |posts|
  {
    if posts == [] {
      Seqs.FilterCons(p, [], keep);
    } else if posts[0].pubDate <= p.pubDate {
      Seqs.FilterCons(p, posts, keep);
      NewestFirstTail(posts);
      forall q | q in Seqs.Filter(posts, keep) ensures q.pubDate <= p.pubDate {
        assert q == posts[0] || q in posts[1..];
      }
    } else {
      FilterInsertLater(posts, p, keep);
    }
  }

  /** The step of FilterInsert where the new post lands after the head. */
  lemma {:induction false} FilterInsertLater(posts: seq<Post>, p: Post, keep: Post -> bool)
    requires NewestFirst(posts)
    requires posts != [] && posts[0].pubDate > p.pubDate
    ensures Seqs.Filter(InsertNewestFirst(posts, p), keep)
         == if keep(p) then InsertNewestFirst(Seqs.Filter(posts, keep), p) else Seqs.Filter(posts, keep)
    decreases |posts|, 0
  {
    var h, t := posts[0], posts[1..];
    assert posts == [h] + t;
    NewestFirstTail(posts);
    FilterInsert(t, p, keep);
    var it := InsertNewestFirst(t, p);
    var ft := Seqs.Filter(t, keep);
    var hs := if keep(h) then [h] else [];
    calc {
      Seqs.Filter(InsertNewestFirst(posts, p), keep);
      { assert InsertNewestFirst(posts, p) == [h] + it; }
      Seqs.Filter([h] + it, keep);
      { Seqs.FilterCons(h, it, keep); }
      hs + Seqs.Filter(it, keep);
    }
    Seqs.FilterCons(h, t, keep);
    assert Seqs.Filter(posts, keep) == hs + ft;
    if !keep(p) {
      assert Seqs.Filter(it, keep) == ft;
    } else if !keep(h) {
      assert hs + ft == ft;
      assert hs + Seqs.Filter(it, keep) == InsertNewestFirst(ft, p);
    } else {
      var hf := [h] + ft;
      assert hf[0] == h && hf[1..] == ft;
      assert InsertNewestFirst(hf, p) == [h] + InsertNewestFirst(ft, p);
      assert Seqs.Filter(it, keep) == InsertNewestFirst(ft, p);
    }
  }

  // ---------------------------------------------------------------------
  // Constraints the database keeps

  function UserIds(users: seq<User>): set<UserId> {
    set u | u in users :: u.id
  }

  function GroupIds(groups: seq<Group>): set<GroupId> {
    set g | g in groups :: g.id
  }

  function PostIds(posts: seq<Post>): set<PostId> {
    set p | p in posts :: p.id
  }

  /** Primary keys are unique, and so are usernames. */
  predicate UniqueUsers(users: seq<User>) {
    forall i, j | 0 <= i < j < |users| :: users[i].id != users[j].id && users[i].username != users[j].username
  }

  /** Primary keys are unique, and so are slugs. */
  predicate UniqueGroups(groups: seq<Group>) {
    forall i, j | 0 <= i < j < |groups| :: groups[i].id != groups[j].id && groups[i].slug != groups[j].slug
  }

  predicate UniquePosts(posts: seq<Post>) {
    forall i, j | 0 <= i < j < |posts| :: posts[i].id != posts[j].id
  }

  predicate UniqueComments(comments: seq<Comment>) {
    forall i, j | 0 <= i < j < |comments| :: comments[i].id != comments[j].id
  }

  /** A post's author exists; its group, when not null, exists. */
  predicate PostKeys(users: seq<User>, groups: seq<Group>, posts: seq<Post>) {
    forall p | p in posts :: p.author in UserIds(users) && (p.group.Some? ==> p.group.value in GroupIds(groups))
  }

  /** A comment's post and author exist. */
  predicate CommentKeys(users: seq<User>, posts: seq<Post>, comments: seq<Comment>) {
    forall c | c in comments :: c.post in PostIds(posts) && c.author in UserIds(users)
  }

  /** Both ends of a follow edge exist. */
  predicate FollowKeys(users: seq<User>, follows: seq<Follow>) {
    forall f | f in follows :: f.user in UserIds(users) && f.author in UserIds(users)
  }

  /** The schema's constraints, with posts stored in their listing order. */
  predicate Integrity(users: seq<User>, groups: seq<Group>, posts: seq<Post>, comments: seq<Comment>, follows: seq<Follow>) {
    && UniqueUsers(users) && UniqueGroups(groups) && UniquePosts(posts) && UniqueComments(comments)
    && PostKeys(users, groups, posts) && CommentKeys(users, posts, comments) && FollowKeys(users, follows)
    && NewestFirst(posts)
  }

  // ---------------------------------------------------------------------
  // Deleting a user: CASCADE from Post.author, Comment.author, Follow.user
  // and Follow.author; the user's posts take their comments with them.

  function OtherUser(u: UserId): User -> bool {
    (x: User) => x.id != u
  }

  function NotBy(u: UserId): Post -> bool {
    (p: Post) => p.author != u
  }

  /** The ids of the posts `u` wrote. */
  function PostIdsBy(posts: seq<Post>, u: UserId): set<PostId> {
    set p | p in posts && p.author == u :: p.id
  }

  function CommentSurvives(u: UserId, doomed: set<PostId>): Comment -> bool {
    (c: Comment) => c.author != u && c.post !in doomed
  }

  function AvoidsUser(u: UserId): Follow -> bool {
    (f: Follow) => f.user != u && f.author != u
  }

  function UsersWithout(users: seq<User>, u: UserId): (r: seq<User>)
    ensures forall x | x in r :: x in users && x.id != u
    ensures forall x | x in users && x.id != u :: x in r
  {
    Seqs.Filter(users, OtherUser(u))
  }

  function PostsNotBy(posts: seq<Post>, u: UserId): (r: seq<Post>)
    ensures forall p | p in r :: p in posts && p.author != u
    ensures forall p | p in posts && p.author != u :: p in r
  {
    Seqs.Filter(posts, NotBy(u))
  }

  function CommentsSurvivingUser(posts: seq<Post>, comments: seq<Comment>, u: UserId): (r: seq<Comment>)
    ensures forall c | c in r :: c in comments && c.author != u && c.post !in PostIdsBy(posts, u)
    ensures forall c | c in comments && c.author != u && c.post !in PostIdsBy(posts, u) :: c in r
  {
    Seqs.Filter(comments, CommentSurvives(u, PostIdsBy(posts, u)))
  }

  function EdgesAvoiding(follows: seq<Follow>, u: UserId): (r: seq<Follow>)
    ensures forall f | f in r :: f in follows && f.user != u && f.author != u
    ensures forall f | f in follows && f.user != u && f.author != u :: f in r
  {
    Seqs.Filter(follows, AvoidsUser(u))
  }

  lemma UserIdsWithout(users: seq<User>, u: UserId)
    ensures UserIds(UsersWithout(users, u)) == UserIds(users) - {u}
  {
    forall id | id in UserIds(users) - {u} ensures id in UserIds(UsersWithout(users, u)) {
      var x :| x in users && x.id == id;
      assert x in UsersWithout(users, u);
    }
  }

  lemma PostIdsNotBy(posts: seq<Post>, u: UserId)
    ensures PostIds(posts) - PostIdsBy(posts, u) <= PostIds(PostsNotBy(posts, u))
  {
    forall id | id in PostIds(posts) - PostIdsBy(posts, u) ensures id in PostIds(PostsNotBy(posts, u)) {
      var p :| p in posts && p.id == id;
      assert p in PostsNotBy(posts, u);
    }
  }

  /** Deleting a user and everything that cascades from it keeps the schema's constraints. */
  lemma DeleteUserKeepsIntegrity(users: seq<User>, groups: seq<Group>, posts: seq<Post>, comments: seq<Comment>, follows: seq<Follow>, u: UserId)
    requires Integrity(users, groups, posts, comments, follows)
    ensures Integrity(UsersWithout(users, u), groups, PostsNotBy(posts, u),
                      CommentsSurvivingUser(posts, comments, u), EdgesAvoiding(follows, u))
  {
    Seqs.FilterKeepsPairwise(users, OtherUser(u), (a: User, b: User) => a.id != b.id && a.username != b.username);
    Seqs.FilterKeepsPairwise(posts, NotBy(u), (a: Post, b: Post) => a.id != b.id);
    Seqs.FilterKeepsPairwise(posts, NotBy(u), (a: Post, b: Post) => a.pubDate >= b.pubDate);
    Seqs.FilterKeepsPairwise(comments, CommentSurvives(u, PostIdsBy(posts, u)), (a: Comment, b: Comment) => a.id != b.id);
    UserIdsWithout(users, u);
    PostIdsNotBy(posts, u);
  }

  // ---------------------------------------------------------------------
  // Deleting a group: SET_NULL from Post.group; the posts stay.

  function OtherGroup(g: GroupId): Group -> bool {
    (x: Group) => x.id != g
  }

  function GroupsWithout(groups: seq<Group>, g: GroupId): (r: seq<Group>)
    ensures forall x | x in r :: x in groups && x.id != g
    ensures forall x | x in groups && x.id != g :: x in r
  {
    Seqs.Filter(groups, OtherGroup(g))
  }

  /** Every post stays where it is with all its fields; only the posts of `g` lose their group. */
  function ClearGroup(posts: seq<Post>, g: GroupId): (r: seq<Post>)
    ensures |r| == |posts|
    ensures forall i | 0 <= i < |r| ::
      && r[i].(group := posts[i].group) == posts[i]
      && r[i].group == (if posts[i].group == Some(g) then None else posts[i].group)
  {
    seq(|posts|, i requires 0 <= i < |posts| =>
      if posts[i].group == Some(g) then posts[i].(group := None) else posts[i])
  }

  lemma GroupIdsWithout(groups: seq<Group>, g: GroupId)
    ensures GroupIds(GroupsWithout(groups, g)) == GroupIds(groups) - {g}
  {
    forall id | id in GroupIds(groups) - {g} ensures id in GroupIds(GroupsWithout(groups, g)) {
      var x :| x in groups && x.id == id;
      assert x in GroupsWithout(groups, g);
    }
  }

  /** Deleting a group and clearing its posts' group keeps the schema's constraints. */
  lemma DeleteGroupKeepsIntegrity(users: seq<User>, groups: seq<Group>, posts: seq<Post>, comments: seq<Comment>, follows: seq<Follow>, g: GroupId)
    requires Integrity(users, groups, posts, comments, follows)
    ensures Integrity(users, GroupsWithout(groups, g), ClearGroup(posts, g), comments, follows)
  {
    var r := ClearGroup(posts, g);
    Seqs.FilterKeepsPairwise(groups, OtherGroup(g), (a: Group, b: Group) => a.id != b.id && a.slug != b.slug);
    GroupIdsWithout(groups, g);
    forall p | p in r ensures p.author in UserIds(users) && (p.group.Some? ==> p.group.value in GroupIds(GroupsWithout(groups, g))) {
      var i :| 0 <= i < |r| && r[i] == p;
      assert posts[i] in posts;
    }
    assert PostIds(r) == PostIds(posts) by {
      forall id | id in PostIds(posts) ensures id in PostIds(r) {
        var i :| 0 <= i < |posts| && posts[i].id == id;
        assert r[i] in r;
      }
    }
  }

  // ---------------------------------------------------------------------
  // Deleting a post: CASCADE from Comment.post.

  function OtherPost(id: PostId): Post -> bool {
    (p: Post) => p.id != id
  }

  function NotOnPost(id: PostId): Comment -> bool {
    (c: Comment) => c.post != id
  }

  function PostsWithout(posts: seq<Post>, id: PostId): (r: seq<Post>)
    ensures forall p | p in r :: p in posts && p.id != id
    ensures forall p | p in posts && p.id != id :: p in r
  {
    Seqs.Filter(posts, OtherPost(id))
  }

  function CommentsNotOn(comments: seq<Comment>, id: PostId): (r: seq<Comment>)
    ensures forall c | c in r :: c in comments && c.post != id
    ensures forall c | c in comments && c.post != id :: c in r
  {
    Seqs.Filter(comments, NotOnPost(id))
  }

  /** Deleting a post together with its comments keeps the schema's constraints. */
  lemma DeletePostKeepsIntegrity(users: seq<User>, groups: seq<Group>, posts: seq<Post>, comments: seq<Comment>, follows: seq<Follow>, id: PostId)
    requires Integrity(users, groups, posts, comments, follows)
    ensures Integrity(users, groups, PostsWithout(posts, id), CommentsNotOn(comments, id), follows)
  {
    Seqs.FilterKeepsPairwise(posts, OtherPost(id), (a: Post, b: Post) => a.id != b.id);
    Seqs.FilterKeepsPairwise(posts, OtherPost(id), (a: Post, b: Post) => a.pubDate >= b.pubDate);
    Seqs.FilterKeepsPairwise(comments, NotOnPost(id), (a: Comment, b: Comment) => a.id != b.id);
    forall c | c in CommentsNotOn(comments, id) ensures c.post in PostIds(PostsWithout(posts, id)) {
      var p :| p in posts && p.id == c.post;
      assert p in PostsWithout(posts, id);
    }
  }
}
