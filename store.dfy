/**
 * The database as the posts app's writing views change it: the five tables,
 * the id counters, the follow, unfollow, create, edit and comment views, the
 * administrator's additions, and deletions with their cascades. The pure
 * functions and lemmas at the top say what each write does to the rows and
 * that it keeps the schema's constraints; the `Blog` class below applies them.
 */
module Store {
  import opened Wrappers
  import opened Models
  import opened Views
  import Seqs

  /** What a bound post form carries: text, optional group and image file name ("" for none). */
  datatype PostData = PostData(text: string, group: Option<GroupId>, image: string)

  /** The post form validates: the text is required and a chosen group must exist. */
  function PostFormValid(groups: seq<Group>, data: PostData): (ok: bool)
    ensures ok <==> |data.text| > 0 && forall g | data.group == Some(g) :: exists x | x in groups :: x.id == g
  {
    data.text != "" && (data.group.Some? ==> data.group.value in GroupIds(groups))
  }

  /** The post the create view saves: the form's fields, the viewer as author, the current time. */
  function NewPost(id: PostId, author: UserId, data: PostData, now: int): (p: Post)
    ensures p.id == id && p.author == author && p.pubDate == now
    ensures p.text == data.text && p.group == data.group && p.image == data.image
  {
    Post(id, data.text, now, author, data.group, data.image)
  }

  /**
   * A post after the edit form is saved over it: the form's text and group;
   * the image only when a new file was uploaded. Id, author and publication
   * date stay.
   */
  function EditedPost(p: Post, data: PostData): (r: Post)
    ensures r.id == p.id && r.author == p.author && r.pubDate == p.pubDate
    ensures r.text == data.text && r.group == data.group
    ensures r.image == if data.image == "" then p.image else data.image
  {
    p.(text := data.text, group := data.group, image := if data.image == "" then p.image else data.image)
  }

  /** The post table after post `id` is edited: every row in place, only that post changed. */
  function EditPosts(posts: seq<Post>, id: PostId, data: PostData): (r: seq<Post>)
    ensures |r| == |posts|
    ensures forall i | 0 <= i < |r| ::
      && r[i].id == posts[i].id && r[i].author == posts[i].author && r[i].pubDate == posts[i].pubDate
      && (posts[i].id != id ==> r[i] == posts[i])
      && (posts[i].id == id ==> r[i] == EditedPost(posts[i], data))
  {
    seq(|posts|, i requires 0 <= i < |posts| => if posts[i].id == id then EditedPost(posts[i], data) else posts[i])
  }

  /** Creating a post under a fresh id, by an existing user, in an existing group or none, keeps the constraints. */
  lemma CreatePostKeepsIntegrity(users: seq<User>, groups: seq<Group>, posts: seq<Post>, comments: seq<Comment>, follows: seq<Follow>, p: Post)
    requires Integrity(users, groups, posts, comments, follows)
    requires p.id !in PostIds(posts) && p.author in UserIds(users)
    requires p.group.Some? ==> p.group.value in GroupIds(groups)
    ensures Integrity(users, groups, InsertNewestFirst(posts, p), comments, follows)
  {
    var r := InsertNewestFirst(posts, p);
    InsertKeepsUnique(posts, p);
    InsertKeepsNewestFirst(posts, p);
    forall q | q in r ensures q in posts || q == p {
      assert q in multiset(r);
    }
  }

  /** Editing a post, with a group that exists or none, keeps the constraints. */
  lemma EditKeepsIntegrity(users: seq<User>, groups: seq<Group>, posts: seq<Post>, comments: seq<Comment>, follows: seq<Follow>, id: PostId, data: PostData)
    requires Integrity(users, groups, posts, comments, follows)
    requires data.group.Some? ==> data.group.value in GroupIds(groups)
    ensures Integrity(users, groups, EditPosts(posts, id, data), comments, follows)
  {
    var r := EditPosts(posts, id, data);
    forall q | q in r ensures q.author in UserIds(users) && (q.group.Some? ==> q.group.value in GroupIds(groups)) {
      var i :| 0 <= i < |r| && r[i] == q;
      assert posts[i] in posts;
    }
    assert PostIds(r) == PostIds(posts) by {
      forall x | x in PostIds(posts) ensures x in PostIds(r) {
        var i :| 0 <= i < |posts| && posts[i].id == x;
        assert r[i] in r;
      }
    }
  }

  /**
   * An edit moves the edited post between group listings as its new group
   * says, keeps it on its author's profile, and changes no other post's
   * place in any listing.
   */
  lemma EditMovesOnlyThePost(posts: seq<Post>, id: PostId, data: PostData, i: nat, l: Listing)
    requires i < |posts|
    ensures posts[i].id == id ==>
      (EditedPost(posts[i], data) in Select(EditPosts(posts, id, data), l) <==>
        l.AllPosts? || l == ByAuthor(posts[i].author) || (l.InGroup? && data.group == Some(l.group)))
    ensures posts[i].id != id ==>
      (posts[i] in Select(EditPosts(posts, id, data), l) <==> posts[i] in Select(posts, l))
  {
    var r := EditPosts(posts, id, data);
    assert r[i] in r;
    if posts[i].id != id {
      if posts[i] in r {
        var k :| 0 <= k < |r| && r[k] == posts[i];
        assert posts[k] == posts[i];
      }
    }
  }

  /** Appending a comment under a fresh id, on an existing post, by an existing user, keeps the constraints. */
  lemma AddCommentKeepsIntegrity(users: seq<User>, groups: seq<Group>, posts: seq<Post>, comments: seq<Comment>, follows: seq<Follow>, c: Comment)
    requires Integrity(users, groups, posts, comments, follows)
    requires c.post in PostIds(posts) && c.author in UserIds(users)
    requires forall x | x in comments :: x.id != c.id
    ensures Integrity(users, groups, posts, comments + [c], follows)
  {
    var r := comments + [c];
    forall i, j | 0 <= i < j < |r| ensures r[i].id != r[j].id {
      assert r[i] == comments[i];
      if j == |comments| {
        assert comments[i] in comments;
      } else {
        assert r[j] == comments[j];
      }
    }
  }

  /** A new comment is listed on its post's detail page, after the comments already there. */
  lemma NewCommentShownLast(posts: seq<Post>, comments: seq<Comment>, c: Comment)
    requires c.post in PostIds(posts)
    ensures PostDetail(posts, comments + [c], c.post).context.comments
         == PostDetail(posts, comments, c.post).context.comments + [c]
  {
    Seqs.FilterAppend(comments, [c], OnPost(c.post));
    Seqs.FilterCons(c, [], OnPost(c.post));
  }

  /** A follow edge between two existing users keeps the constraints, and no edge is doubled. */
  lemma SubscribeKeepsIntegrity(users: seq<User>, groups: seq<Group>, posts: seq<Post>, comments: seq<Comment>, follows: seq<Follow>, user: UserId, author: UserId)
    requires Integrity(users, groups, posts, comments, follows)
    requires user in UserIds(users) && author in UserIds(users)
    ensures Integrity(users, groups, posts, comments, Subscribe(follows, user, author))
  {
  }

  /** Removing edges never breaks the constraints. */
  lemma UnsubscribeKeepsIntegrity(users: seq<User>, groups: seq<Group>, posts: seq<Post>, comments: seq<Comment>, follows: seq<Follow>, user: UserId, author: UserId)
    requires Integrity(users, groups, posts, comments, follows)
    ensures Integrity(users, groups, posts, comments, Unsubscribe(follows, user, author))
    ensures NoDuplicateEdges(follows) ==> NoDuplicateEdges(Unsubscribe(follows, user, author))
  {
    if NoDuplicateEdges(follows) {
      UnsubscribeNoDuplicates(follows, user, author);
    }
  }

  /** Deleting a user's edges keeps the table free of duplicates. */
  lemma EdgesAvoidingNoDuplicates(follows: seq<Follow>, u: UserId)
    requires NoDuplicateEdges(follows)
    ensures NoDuplicateEdges(EdgesAvoiding(follows, u))
  {
    forall e | e in EdgesAvoiding(follows, u) ensures multiset(EdgesAvoiding(follows, u))[e] <= 1 {
      Seqs.FilterCount(follows, AvoidsUser(u), e);
    }
  }

  /** A new account with a fresh id and an unused username keeps the constraints. */
  lemma AddUserKeepsIntegrity(users: seq<User>, groups: seq<Group>, posts: seq<Post>, comments: seq<Comment>, follows: seq<Follow>, u: User)
    requires Integrity(users, groups, posts, comments, follows)
    requires forall x | x in users :: x.id != u.id && x.username != u.username
    ensures Integrity(users + [u], groups, posts, comments, follows)
  {
    var r := users + [u];
    forall i, j | 0 <= i < j < |r| ensures r[i].id != r[j].id && r[i].username != r[j].username {
      assert r[i] == users[i];
      if j == |users| {
        assert users[i] in users;
      } else {
        assert r[j] == users[j];
      }
    }
    assert UserIds(r) == UserIds(users) + {u.id} by {
      assert u in r;
      forall id | id in UserIds(users) ensures id in UserIds(r) {
        var x :| x in users && x.id == id;
        assert x in r;
      }
    }
  }

  /** A new group with a fresh id and an unused slug keeps the constraints. */
  lemma AddGroupKeepsIntegrity(users: seq<User>, groups: seq<Group>, posts: seq<Post>, comments: seq<Comment>, follows: seq<Follow>, g: Group)
    requires Integrity(users, groups, posts, comments, follows)
    requires forall x | x in groups :: x.id != g.id && x.slug != g.slug
    ensures Integrity(users, groups + [g], posts, comments, follows)
  {
    var r := groups + [g];
    forall i, j | 0 <= i < j < |r| ensures r[i].id != r[j].id && r[i].slug != r[j].slug {
      assert r[i] == groups[i];
      if j == |groups| {
        assert groups[i] in groups;
      } else {
        assert r[j] == groups[j];
      }
    }
    assert GroupIds(r) == GroupIds(groups) + {g.id} by {
      assert g in r;
      forall id | id in GroupIds(groups) ensures id in GroupIds(r) {
        var x :| x in groups && x.id == id;
        assert x in r;
      }
    }
  }

  // ---------------------------------------------------------------------
  // The database

  class Blog {
    var users: seq<User>
    var groups: seq<Group>
    var posts: seq<Post>
    var comments: seq<Comment>
    var follows: seq<Follow>
    var nextUserId: nat
    var nextGroupId: nat
    var nextPostId: nat
    var nextCommentId: nat

    /** The schema's constraints, no doubled follow edge, and every id below its counter. */
    ghost predicate Valid()
      reads this
    {
      && Integrity(users, groups, posts, comments, follows)
      && NoDuplicateEdges(follows)
      && (forall u | u in users :: u.id < nextUserId)
      && (forall g | g in groups :: g.id < nextGroupId)
      && (forall p | p in posts :: p.id < nextPostId)
      && (forall c | c in comments :: c.id < nextCommentId)
    }

    /** The session's user, when there is one, is an existing account. */
    predicate KnownViewer(req: Request)
      reads this
    {
      req.viewer.Some? ==> req.viewer.value in users
    }

    constructor ()
      ensures Valid()
      ensures users == [] && groups == [] && posts == [] && comments == [] && follows == []
    {
      users, groups, posts, comments, follows := [], [], [], [], [];
      nextUserId, nextGroupId, nextPostId, nextCommentId := 0, 0, 0, 0;
    }

    /** Registers an account; a taken username violates its unique constraint and nothing is stored. */
    method AddUser(username: string) returns (r: Option<UserId>)
      requires Valid()
      modifies this
      ensures Valid()
      ensures groups == old(groups) && posts == old(posts) && comments == old(comments) && follows == old(follows)
      ensures (exists u | u in old(users) :: u.username == username) ==> r.None? && users == old(users)
      ensures (forall u | u in old(users) :: u.username != username) ==>
        r == Some(old(nextUserId)) && users == old(users) + [User(old(nextUserId), username)]
    {
      match FindUser(users, username)
      case Some(_) =>
        r := None;
      case None =>
        var u := User(nextUserId, username);
        AddUserKeepsIntegrity(users, groups, posts, comments, follows, u);
        users := users + [u];
        nextUserId := nextUserId + 1;
        r := Some(u.id);
    }

    /** Creates a group, as the administrator does; a taken slug violates its unique constraint. */
    method AddGroup(title: string, slug: string, description: string) returns (r: Option<GroupId>)
      requires Valid()
      modifies this
      ensures Valid()
      ensures users == old(users) && posts == old(posts) && comments == old(comments) && follows == old(follows)
      ensures (exists g | g in old(groups) :: g.slug == slug) ==> r.None? && groups == old(groups)
      ensures (forall g | g in old(groups) :: g.slug != slug) ==>
        r == Some(old(nextGroupId)) && groups == old(groups) + [Group(old(nextGroupId), title, slug, description)]
    {
      match FindGroup(groups, slug)
      case Some(_) =>
        r := None;
      case None =>
        var g := Group(nextGroupId, title, slug, description);
        AddGroupKeepsIntegrity(users, groups, posts, comments, follows, g);
        groups := groups + [g];
        nextGroupId := nextGroupId + 1;
        r := Some(g.id);
    }

    /**
     * profile_follow: login required; 404 for an unknown username; otherwise
     * an edge from the viewer to the author unless it would be a self-follow
     * or is already there; then back to the profile.
     */
    method ProfileFollow(req: Request, username: string) returns (resp: Response)
      requires Valid() && KnownViewer(req)
      modifies this
      ensures Valid()
      ensures users == old(users) && groups == old(groups) && posts == old(posts) && comments == old(comments)
      ensures req.viewer.None? ==> resp == Redirect(LoginPage(req.path)) && follows == old(follows)
      ensures req.viewer.Some? && (forall u | u in users :: u.username != username) ==>
        resp == NotFound && follows == old(follows)
      ensures req.viewer.Some? && FindUser(users, username).Some? ==>
        && resp == Redirect(ProfilePage(username))
        && follows == Subscribe(old(follows), req.viewer.value.id, FindUser(users, username).value.id)
    {
      if req.viewer.None? {
        return Redirect(LoginPage(req.path));
      }
      match FindUser(users, username)
      case None =>
        resp := NotFound;
      case Some(author) =>
        var viewer := req.viewer.value;
        SubscribeKeepsIntegrity(users, groups, posts, comments, follows, viewer.id, author.id);
        follows := Subscribe(follows, viewer.id, author.id);
        resp := Redirect(ProfilePage(username));
    }

    /**
     * profile_unfollow: login required; 404 for an unknown username;
     * otherwise every edge from the viewer to the author is deleted; then
     * back to the profile.
     */
    method ProfileUnfollow(req: Request, username: string) returns (resp: Response)
      requires Valid() && KnownViewer(req)
      modifies this
      ensures Valid()
      ensures users == old(users) && groups == old(groups) && posts == old(posts) && comments == old(comments)
      ensures req.viewer.None? ==> resp == Redirect(LoginPage(req.path)) && follows == old(follows)
      ensures req.viewer.Some? && (forall u | u in users :: u.username != username) ==>
        resp == NotFound && follows == old(follows)
      ensures req.viewer.Some? && FindUser(users, username).Some? ==>
        && resp == Redirect(ProfilePage(username))
        && follows == Unsubscribe(old(follows), req.viewer.value.id, FindUser(users, username).value.id)
    {
      if req.viewer.None? {
        return Redirect(LoginPage(req.path));
      }
      match FindUser(users, username)
      case None =>
        resp := NotFound;
      case Some(author) =>
        var viewer := req.viewer.value;
        UnsubscribeKeepsIntegrity(users, groups, posts, comments, follows, viewer.id, author.id);
        follows := Unsubscribe(follows, viewer.id, author.id);
        resp := Redirect(ProfilePage(username));
    }

    /**
     * post_create: login required; a valid submitted form stores a new post
     * by the viewer, published `now`, and redirects to the viewer's profile;
     * a missing or invalid form renders the form again.
     */
    method PostCreate(req: Request, form: Option<PostData>, now: int) returns (resp: Response)
      requires Valid() && KnownViewer(req)
      modifies this
      ensures Valid()
      ensures users == old(users) && groups == old(groups) && comments == old(comments) && follows == old(follows)
      ensures req.viewer.None? ==> resp == Redirect(LoginPage(req.path)) && posts == old(posts)
      ensures req.viewer.Some? && form.Some? && PostFormValid(groups, form.value) ==>
        && resp == Redirect(ProfilePage(req.viewer.value.username))
        && posts == InsertNewestFirst(old(posts), NewPost(old(nextPostId), req.viewer.value.id, form.value, now))
        && nextPostId == old(nextPostId) + 1
      ensures req.viewer.Some? && !(form.Some? && PostFormValid(groups, form.value)) ==>
        resp == Render(FormContext(None)) && posts == old(posts)
    {
      if req.viewer.None? {
        return Redirect(LoginPage(req.path));
      }
      var viewer := req.viewer.value;
      if form.Some? && PostFormValid(groups, form.value) {
        var p := NewPost(nextPostId, viewer.id, form.value, now);
        assert viewer.id in UserIds(users);
        CreatePostKeepsIntegrity(users, groups, posts, comments, follows, p);
        posts := InsertNewestFirst(posts, p);
        forall q | q in posts ensures q.id < nextPostId + 1 {
          assert q in multiset(posts);
        }
        nextPostId := nextPostId + 1;
        resp := Redirect(ProfilePage(viewer.username));
      } else {
        resp := Render(FormContext(None));
      }
    }

    /**
     * post_edit: login required; 404 for an unknown post; a viewer who is
     * not the author is sent to the post's page; a valid submitted form is
     * saved over the post and redirects to its page; otherwise the form is
     * rendered for the post.
     */
    method PostEdit(req: Request, id: PostId, form: Option<PostData>) returns (resp: Response)
      requires Valid() && KnownViewer(req)
      modifies this
      ensures Valid()
      ensures users == old(users) && groups == old(groups) && comments == old(comments) && follows == old(follows)
      ensures nextPostId == old(nextPostId)
      ensures req.viewer.None? ==> resp == Redirect(LoginPage(req.path)) && posts == old(posts)
      ensures req.viewer.Some? && id !in PostIds(old(posts)) ==> resp == NotFound && posts == old(posts)
      ensures req.viewer.Some? && FindPost(old(posts), id).Some? ==>
        var post := FindPost(old(posts), id).value;
        && (post.author != req.viewer.value.id ==> resp == Redirect(PostDetailPage(id)) && posts == old(posts))
        && (post.author == req.viewer.value.id && form.Some? && PostFormValid(groups, form.value) ==>
              resp == Redirect(PostDetailPage(id)) && posts == EditPosts(old(posts), id, form.value))
        && (post.author == req.viewer.value.id && !(form.Some? && PostFormValid(groups, form.value)) ==>
              resp == Render(FormContext(Some(post))) && posts == old(posts))
    {
      if req.viewer.None? {
        return Redirect(LoginPage(req.path));
      }
      match FindPost(posts, id)
      case None =>
        resp := NotFound;
      case Some(post) =>
        if req.viewer.value.id != post.author {
          resp := Redirect(PostDetailPage(id));
        } else if form.Some? && PostFormValid(groups, form.value) {
          EditKeepsIntegrity(users, groups, posts, comments, follows, id, form.value);
          var edited := EditPosts(posts, id, form.value);
          forall q | q in edited ensures q.id < nextPostId {
            var i :| 0 <= i < |edited| && edited[i] == q;
            assert posts[i] in posts;
          }
          posts := edited;
          resp := Redirect(PostDetailPage(id));
        } else {
          resp := Render(FormContext(Some(post)));
        }
    }

    /**
     * add_comment: login required; 404 for an unknown post; a submitted
     * non-empty text is stored as the viewer's comment, published `now`;
     * either way back to the post's page.
     */
    method AddComment(req: Request, id: PostId, text: Option<string>, now: int) returns (resp: Response)
      requires Valid() && KnownViewer(req)
      modifies this
      ensures Valid()
      ensures users == old(users) && groups == old(groups) && posts == old(posts) && follows == old(follows)
      ensures req.viewer.None? ==> resp == Redirect(LoginPage(req.path)) && comments == old(comments)
      ensures req.viewer.Some? && id !in PostIds(posts) ==> resp == NotFound && comments == old(comments)
      ensures req.viewer.Some? && id in PostIds(posts) ==> resp == Redirect(PostDetailPage(id))
      ensures req.viewer.Some? && id in PostIds(posts) && text.Some? && text.value != "" ==>
        && comments == old(comments) + [Comment(old(nextCommentId), id, req.viewer.value.id, text.value, now)]
        && nextCommentId == old(nextCommentId) + 1
      ensures req.viewer.Some? && !(text.Some? && text.value != "") ==> comments == old(comments)
    {
      if req.viewer.None? {
        return Redirect(LoginPage(req.path));
      }
      match FindPost(posts, id)
      case None =>
        resp := NotFound;
      case Some(post) =>
        if text.Some? && text.value != "" {
          var c := Comment(nextCommentId, id, req.viewer.value.id, text.value, now);
          assert req.viewer.value.id in UserIds(users);
          AddCommentKeepsIntegrity(users, groups, posts, comments, follows, c);
          comments := comments + [c];
          nextCommentId := nextCommentId + 1;
        }
        resp := Redirect(PostDetailPage(id));
    }

    /**
     * Deletes a user. CASCADE takes their posts, the comments on those posts,
     * their own comments and every follow edge at either end.
     */
    method DeleteUser(u: UserId)
      requires Valid()
      modifies this
      ensures Valid()
      ensures groups == old(groups)
      ensures users == UsersWithout(old(users), u)
      ensures posts == PostsNotBy(old(posts), u)
      ensures comments == CommentsSurvivingUser(old(posts), old(comments), u)
      ensures follows == EdgesAvoiding(old(follows), u)
    {
      DeleteUserKeepsIntegrity(users, groups, posts, comments, follows, u);
      EdgesAvoidingNoDuplicates(follows, u);
      comments := CommentsSurvivingUser(posts, comments, u);
      users := UsersWithout(users, u);
      posts := PostsNotBy(posts, u);
      follows := EdgesAvoiding(follows, u);
    }

    /** Deletes a group. SET_NULL keeps its posts, now without a group. */
    method DeleteGroup(g: GroupId)
      requires Valid()
      modifies this
      ensures Valid()
      ensures users == old(users) && comments == old(comments) && follows == old(follows)
      ensures groups == GroupsWithout(old(groups), g)
      ensures posts == ClearGroup(old(posts), g)
    {
      DeleteGroupKeepsIntegrity(users, groups, posts, comments, follows, g);
      var cleared := ClearGroup(posts, g);
      forall q | q in cleared ensures q.id < nextPostId {
        var i :| 0 <= i < |cleared| && cleared[i] == q;
        assert posts[i] in posts;
      }
      groups := GroupsWithout(groups, g);
      posts := cleared;
    }

    /** Deletes a post. CASCADE takes its comments. */
    method DeletePost(id: PostId)
      requires Valid()
      modifies this
      ensures Valid()
      ensures users == old(users) && groups == old(groups) && follows == old(follows)
      ensures posts == PostsWithout(old(posts), id)
      ensures comments == CommentsNotOn(old(comments), id)
    {
      DeletePostKeepsIntegrity(users, groups, posts, comments, follows, id);
      posts := PostsWithout(posts, id);
      comments := CommentsNotOn(comments, id);
    }
  }
}
