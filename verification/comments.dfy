/**
 * The comments API of src/app/api/comments/route.ts.
 *
 * GET lists the comments of one article as a two-level thread: each top-level comment
 * followed by its direct replies, with a flag saying whether the signed-in user liked
 * it. POST stores a new comment for a signed-in user.
 *
 * The database and the authentication service are parameters: `users` maps a bearer
 * token to the id of its user, `likes` maps a user id to the comment ids that user
 * liked, and the comments table is given as its rows in creation order.
 */
module Comments {
  import opened Wrappers
  import opened JsStrings
  import opened Lists

  /** A row of the `comments` table (the joined profile is carried along untouched). */
  datatype Comment = Comment(
    id: string,
    parentId: Option<string>,
    articleUrl: string,
    content: string,
    userId: string,
    depth: Option<int>)

  /** A comment as GET returns it. */
  datatype FormattedComment = FormattedComment(comment: Comment, userHasLiked: bool, likesCount: int)

  /** A comment is top level when its parent id is null or empty. */
  predicate IsRoot(c: FormattedComment) {
    !Truthy(c.comment.parentId)
  }

  predicate IsReply(c: FormattedComment) {
    Truthy(c.comment.parentId)
  }

  // ---------------------------------------------------------------------------
  // Formatting and threading

  /** The user a bearer header names: `replace('Bearer ', '')` on the header, then the lookup. */
  function UserOf(authHeader: Option<string>, users: string -> Option<string>): (userId: Option<string>)
    ensures !Truthy(authHeader) ==> userId == None
  {
    if Truthy(authHeader) then users(ReplaceFirst(authHeader.value, "Bearer ", "")) else None
  }

  /** `Bearer <token>` looks up the token. */
  lemma BearerToken(token: string, users: string -> Option<string>)
    ensures UserOf(Some("Bearer " + token), users) == users(token)
  {
    assert |"Bearer " + token| >= 7;
    ReplaceFirstPrefix("Bearer ", token, "");
    assert "" + token == token;
  }

  /** The ids of the comments the signed-in user liked; none without a user or when the query fails. */
  function MyLikes(userId: Option<string>, likes: string -> Option<seq<string>>): (liked: set<string>)
    ensures !Truthy(userId) ==> liked == {}
    ensures Truthy(userId) && likes(userId.value).None? ==> liked == {}
    ensures Truthy(userId) && likes(userId.value).Some? ==> forall id :: id in liked <==> id in likes(userId.value).value
  {
    if Truthy(userId) && likes(userId.value).Some? then set id | id in likes(userId.value).value else {}
  }

  /** Each comment with its like flag, and a like count that is always 0. */
  function Format(comments: seq<Comment>, liked: set<string>): (r: seq<FormattedComment>)
    ensures |r| == |comments|
    ensures forall k :: 0 <= k < |r| ==> r[k].comment == comments[k]
    ensures forall k :: 0 <= k < |r| ==> (r[k].userHasLiked <==> comments[k].id in liked) && r[k].likesCount == 0
  {
    seq(|comments|, k requires 0 <= k < |comments| => FormattedComment(comments[k], comments[k].id in liked, 0))
  }

  /** The replies addressed to the comment with id `id`, in their order. */
  function RepliesTo(replies: seq<FormattedComment>, id: string): seq<FormattedComment> {
    Filter(replies, (c: FormattedComment) => c.comment.parentId == Some(id))
  }

  /** The thread: for each top-level comment in turn, the comment and then its replies. */
  function ThreadOf(roots: seq<FormattedComment>, replies: seq<FormattedComment>): seq<FormattedComment>
    decreases |roots|
  {
    if roots == [] then []
    else
      var last := roots[|roots| - 1];
      ThreadOf(roots[..|roots| - 1], replies) + [last] + RepliesTo(replies, last.comment.id)
  }

  /** The `forEach` that pushes each top-level comment and its replies. */
  method BuildThread(formatted: seq<FormattedComment>) returns (thread: seq<FormattedComment>)
    ensures thread == ThreadOf(Filter(formatted, IsRoot), Filter(formatted, IsReply))
  {
    var roots := Filter(formatted, IsRoot);
    var replies := Filter(formatted, IsReply);
    thread := [];
    for i := 0 to |roots|
      invariant thread == ThreadOf(roots[..i], replies)
    {
      var root := roots[i];
      thread := thread + [root];
      var myReplies := RepliesTo(replies, root.comment.id);
      thread := thread + myReplies;
      assert roots[..i + 1][..i] == roots[..i];
    }
    assert roots[..|roots|] == roots;
  }

  // ---------------------------------------------------------------------------
  // GET

  datatype CommentsQuery = QueryError(message: string) | Table(rows: seq<Comment>)

  datatype GetResponse =
    | MissingUrl
    | DatabaseError(message: string)
    | Threaded(thread: seq<FormattedComment>)

  function GetStatus(r: GetResponse): (status: int)
    ensures status == 400 <==> r.MissingUrl?
    ensures status == 500 <==> r.DatabaseError?
    ensures status == 200 <==> r.Threaded?
  {
    match r
    case MissingUrl => 400
    case DatabaseError(_) => 500
    case Threaded(_) => 200
  }

  /** The comments of one article, oldest first: the `eq('article_url', …)` select. */
  function CommentsOf(rows: seq<Comment>, articleUrl: string): seq<Comment> {
    Filter(rows, (c: Comment) => c.articleUrl == articleUrl)
  }

  /** The formatted comments of the article as the signed-in user sees them. */
  function FormattedFor(rows: seq<Comment>, articleUrl: string, authHeader: Option<string>,
                        users: string -> Option<string>, likes: string -> Option<seq<string>>): seq<FormattedComment> {
    Format(CommentsOf(rows, articleUrl), MyLikes(UserOf(authHeader, users), likes))
  }

  /** `GET /api/comments?url=…` */
  method Get(url: Option<string>, authHeader: Option<string>, users: string -> Option<string>,
             query: CommentsQuery, likes: string -> Option<seq<string>>) returns (resp: GetResponse)
    ensures !Truthy(url) ==> resp == MissingUrl
    ensures Truthy(url) && query.QueryError? ==> resp == DatabaseError(query.message)
    ensures Truthy(url) && query.Table? ==>
      var formatted := FormattedFor(query.rows, url.value, authHeader, users, likes);
      resp == Threaded(ThreadOf(Filter(formatted, IsRoot), Filter(formatted, IsReply)))
  {
    if !Truthy(url) {
      return MissingUrl;
    }
    var userId := UserOf(authHeader, users);
    if query.QueryError? {
      return DatabaseError(query.message);
    }
    var comments := CommentsOf(query.rows, url.value);
    var myLikes := MyLikes(userId, likes);
    var formatted := Format(comments, myLikes);
    var thread := BuildThread(formatted);
    return Threaded(thread);
  }

  // ---------------------------------------------------------------------------
  // Properties of the thread

  /**
   * The thread holds exactly the top-level comments and the replies addressed to one
   * of them; a reply whose parent is not top level is dropped.
   */
  lemma {:induction false} ThreadMembers(roots: seq<FormattedComment>, replies: seq<FormattedComment>, x: FormattedComment)
    ensures x in ThreadOf(roots, replies)
        <==> (x in roots || (x in replies && exists r :: r in roots && x.comment.parentId == Some(r.comment.id)))
    decreases |roots|
  {
    if roots != [] {
      var init, last := roots[..|roots| - 1], roots[|roots| - 1];
      ThreadMembers(init, replies, x);
      assert roots == init + [last];
      if x in replies && x.comment.parentId == Some(last.comment.id) {
        assert x in RepliesTo(replies, last.comment.id);
      }
      if x in replies && exists r :: r in init && x.comment.parentId == Some(r.comment.id) {
        var r :| r in init && x.comment.parentId == Some(r.comment.id);
        assert r in roots;
      }
      if x in replies && exists r :: r in roots && x.comment.parentId == Some(r.comment.id) {
        var r :| r in roots && x.comment.parentId == Some(r.comment.id);
        assert r in init || r == last;
      }
    }
  }

  /** Taking the top-level comments back out of the thread gives them in their order. */
  lemma {:induction false} ThreadKeepsRootOrder(roots: seq<FormattedComment>, replies: seq<FormattedComment>)
    requires forall r :: r in roots ==> IsRoot(r)
    requires forall c :: c in replies ==> IsReply(c)
    ensures Filter(ThreadOf(roots, replies), IsRoot) == roots
    decreases |roots|
  {
    if roots != [] {
      var init, last := roots[..|roots| - 1], roots[|roots| - 1];
      var before := ThreadOf(init, replies);
      var mine := RepliesTo(replies, last.comment.id);
      assert ThreadOf(roots, replies) == (before + [last]) + mine;
      assert Filter(before, IsRoot) == init by {
        assert forall r :: r in init ==> r in roots;
        ThreadKeepsRootOrder(init, replies);
      }
      assert Filter([last], IsRoot) == [last] by {
        assert last in roots && [last][1..] == [];
      }
      assert Filter(mine, IsRoot) == [] by {
        FilterNone(mine, IsRoot);
      }
      assert Filter((before + [last]) + mine, IsRoot) == init + [last] by {
        FilterAppend(before + [last], mine, IsRoot);
        FilterAppend(before, [last], IsRoot);
      }
      assert init + [last] == roots;
    }
  }

  /** The id of the last top-level comment of a list, if any. */
  function LastRootId(t: seq<FormattedComment>): Option<string>
    decreases |t|
  {
    if t == [] then None
    else if IsRoot(t[|t| - 1]) then Some(t[|t| - 1].comment.id)
    else LastRootId(t[..|t| - 1])
  }

  /** Every reply of the list is addressed to the nearest top-level comment before it. */
  ghost predicate Attached(t: seq<FormattedComment>) {
    forall k :: 0 <= k < |t| && !IsRoot(t[k]) ==> t[k].comment.parentId == LastRootId(t[..k])
  }

  /** Replies appended after a list do not change its last top-level comment. */
  lemma {:induction false} LastRootIdSkips(s: seq<FormattedComment>, tail: seq<FormattedComment>)
    requires forall x :: x in tail ==> !IsRoot(x)
    ensures LastRootId(s + tail) == LastRootId(s)
    decreases |tail|
  {
    if tail == [] {
      assert s + tail == s;
    } else {
      var init := tail[..|tail| - 1];
      assert (s + tail)[|s + tail| - 1] == tail[|tail| - 1];
      assert (s + tail)[..|s + tail| - 1] == s + init;
      assert tail[|tail| - 1] in tail;
      assert forall x :: x in init ==> x in tail;
      LastRootIdSkips(s, init);
    }
  }

  /** Every reply of the thread sits under the top-level comment it answers. */
  lemma {:induction false} ThreadAttached(roots: seq<FormattedComment>, replies: seq<FormattedComment>)
    requires forall r :: r in roots ==> IsRoot(r)
    requires forall c :: c in replies ==> IsReply(c)
    ensures Attached(ThreadOf(roots, replies))
    decreases |roots|
  {
    if roots != [] {
      var init, last := roots[..|roots| - 1], roots[|roots| - 1];
      assert forall r :: r in init ==> r in roots;
      assert last in roots;
      ThreadAttached(init, replies);
      var before := ThreadOf(init, replies);
      var mine := RepliesTo(replies, last.comment.id);
      var t := before + [last] + mine;
      assert t == ThreadOf(roots, replies);
      forall k | 0 <= k < |t| && !IsRoot(t[k])
        ensures t[k].comment.parentId == LastRootId(t[..k])
      {
        if k < |before| {
          assert t[k] == before[k];
          assert t[..k] == before[..k];
        } else if k > |before| {
          var j := k - |before| - 1;
          assert t[k] == mine[j];
          assert mine[j] in mine;
          assert t[..k] == (before + [last]) + mine[..j];
          assert forall x :: x in mine[..j] ==> x in mine;
          LastRootIdSkips(before + [last], mine[..j]);
          assert (before + [last])[..|before|] == before;
        }
      }
    }
  }

  /** No two comments of the list share an id. */
  predicate UniqueIds(s: seq<FormattedComment>) {
    forall i, j :: 0 <= i < j < |s| ==> s[i].comment.id != s[j].comment.id
  }

  /** The number of replies whose parent id is one of `parents`. */
  function ReplyCount(replies: seq<FormattedComment>, parents: set<Option<string>>): (n: nat)
    ensures n <= |replies|
    decreases |replies|
  {
    if replies == [] then 0
    else (if replies[0].comment.parentId in parents then 1 else 0) + ReplyCount(replies[1..], parents)
  }

  /** The parent ids that address one of the given comments. */
  function ParentIds(roots: seq<FormattedComment>): set<Option<string>> {
    set r | r in roots :: Some(r.comment.id)
  }

  lemma {:induction false} RepliesToCount(replies: seq<FormattedComment>, id: string)
    ensures |RepliesTo(replies, id)| == ReplyCount(replies, {Some(id)})
    decreases |replies|
  {
    if replies != [] {
      RepliesToCount(replies[1..], id);
    }
  }

  lemma {:induction false} ReplyCountNone(replies: seq<FormattedComment>)
    ensures ReplyCount(replies, {}) == 0
    decreases |replies|
  {
    if replies != [] {
      ReplyCountNone(replies[1..]);
    }
  }

  lemma {:induction false} ReplyCountUnion(replies: seq<FormattedComment>, a: set<Option<string>>, b: set<Option<string>>)
    requires a !! b
    ensures ReplyCount(replies, a + b) == ReplyCount(replies, a) + ReplyCount(replies, b)
    decreases |replies|
  {
    if replies != [] {
      ReplyCountUnion(replies[1..], a, b);
    }
  }

  /**
   * With distinct ids among the top-level comments, the thread holds each of them
   * and each reply to one of them exactly once.
   */
  lemma {:induction false} ThreadLength(roots: seq<FormattedComment>, replies: seq<FormattedComment>)
    requires UniqueIds(roots)
    ensures |ThreadOf(roots, replies)| == |roots| + ReplyCount(replies, ParentIds(roots))
    decreases |roots|
  {
    if roots == [] {
      assert ParentIds(roots) == {};
      ReplyCountNone(replies);
    } else {
      var init, last := roots[..|roots| - 1], roots[|roots| - 1];
      assert UniqueIds(init) by {
        forall i, j | 0 <= i < j < |init| ensures init[i].comment.id != init[j].comment.id {
          assert init[i] == roots[i] && init[j] == roots[j];
        }
      }
      ThreadLength(init, replies);
      RepliesToCount(replies, last.comment.id);
      assert roots == init + [last];
      assert ParentIds(roots) == ParentIds(init) + {Some(last.comment.id)};
      forall r | r in init ensures r.comment.id != last.comment.id {
        var i :| 0 <= i < |init| && init[i] == r;
        assert roots[i] == r;
      }
      ReplyCountUnion(replies, ParentIds(init), {Some(last.comment.id)});
    }
  }

  /** The top-level comments and the replies partition the list. */
  lemma {:induction false} PartitionLength(s: seq<FormattedComment>)
    ensures |Filter(s, IsRoot)| + |Filter(s, IsReply)| == |s|
    decreases |s|
  {
    if s != [] {
      PartitionLength(s[1..]);
    }
  }

  /** Filtering keeps ids distinct. */
  lemma {:induction false} FilterUniqueIds(s: seq<FormattedComment>, p: FormattedComment -> bool)
    requires UniqueIds(s)
    ensures UniqueIds(Filter(s, p))
    decreases |s|
  {
    if s != [] {
      var rest := Filter(s[1..], p);
      assert UniqueIds(s[1..]) by {
        forall i, j | 0 <= i < j < |s[1..]| ensures s[1..][i].comment.id != s[1..][j].comment.id {
          assert s[1..][i] == s[i + 1] && s[1..][j] == s[j + 1];
        }
      }
      FilterUniqueIds(s[1..], p);
      forall x | x in rest ensures x.comment.id != s[0].comment.id {
        var k :| 0 <= k < |s[1..]| && s[1..][k] == x;
        assert s[k + 1] == x;
      }
      var r := Filter(s, p);
      if p(s[0]) {
        assert r == [s[0]] + rest;
        forall i, j | 0 <= i < j < |r| ensures r[i].comment.id != r[j].comment.id {
          if i == 0 {
            assert r[j] == rest[j - 1] && rest[j - 1] in rest;
          } else {
            assert r[i] == rest[i - 1] && r[j] == rest[j - 1];
          }
        }
      } else {
        assert r == rest;
      }
    }
  }

  /** With distinct comment ids the thread is never longer than the list of comments. */
  lemma ThreadBound(formatted: seq<FormattedComment>)
    requires UniqueIds(formatted)
    ensures |ThreadOf(Filter(formatted, IsRoot), Filter(formatted, IsReply))| <= |formatted|
  {
    var roots, replies := Filter(formatted, IsRoot), Filter(formatted, IsReply);
    FilterUniqueIds(formatted, IsRoot);
    ThreadLength(roots, replies);
    PartitionLength(formatted);
  }

  /**
   * What GET returns for an article: only that article's comments, every top-level
   * comment in its order, each reply right under the comment it answers, replies to
   * anything else dropped, and no comment marked as liked without a signed-in user.
   */
  lemma GetThreadProperties(rows: seq<Comment>, articleUrl: string, authHeader: Option<string>,
                            users: string -> Option<string>, likes: string -> Option<seq<string>>)
    ensures var formatted := FormattedFor(rows, articleUrl, authHeader, users, likes);
      var roots := Filter(formatted, IsRoot);
      var thread := ThreadOf(roots, Filter(formatted, IsReply));
      && (forall x :: x in thread ==> x in formatted && x.comment.articleUrl == articleUrl)
      && Filter(thread, IsRoot) == roots
      && Attached(thread)
      && (forall x :: x in thread <==> x in roots || (x in formatted && IsReply(x) && exists r :: r in roots && x.comment.parentId == Some(r.comment.id)))
      && (!Truthy(UserOf(authHeader, users)) ==> forall x :: x in thread ==> !x.userHasLiked)
  {
    var comments := CommentsOf(rows, articleUrl);
    var formatted := FormattedFor(rows, articleUrl, authHeader, users, likes);
    var roots := Filter(formatted, IsRoot);
    var replies := Filter(formatted, IsReply);
    var thread := ThreadOf(roots, replies);
    forall x | x in formatted ensures x.comment.articleUrl == articleUrl {
      var k :| 0 <= k < |formatted| && formatted[k] == x;
      assert comments[k] in comments;
    }
    forall x ensures x in thread <==> x in roots || (x in replies && exists r :: r in roots && x.comment.parentId == Some(r.comment.id)) {
      ThreadMembers(roots, replies, x);
    }
    ThreadKeepsRootOrder(roots, replies);
    ThreadAttached(roots, replies);
    if !Truthy(UserOf(authHeader, users)) {
      forall x | x in formatted ensures !x.userHasLiked {
        var k :| 0 <= k < |formatted| && formatted[k] == x;
      }
    }
  }

  // ---------------------------------------------------------------------------
  // POST

  /** What the authentication service answers for a token. */
  datatype AuthAnswer = AuthAnswer(user: Option<string>, error: Option<string>)

  /** The fields of the request body. */
  datatype PostBody = PostBody(articleUrl: Option<string>, content: Option<string>, parentId: Option<string>, depth: Option<int>)

  /** The row POST inserts. */
  datatype NewComment = NewComment(userId: string, articleUrl: string, content: string, parentId: Option<string>, depth: Option<int>)

  datatype PostResponse = Unauthorized | MissingFields | InsertFailed(message: string) | Created

  function PostStatus(r: PostResponse): (status: int)
    ensures status == 401 <==> r.Unauthorized?
    ensures status == 400 <==> r.MissingFields?
    ensures status == 500 <==> r.InsertFailed?
    ensures status == 200 <==> r.Created?
  {
    match r
    case Unauthorized => 401
    case MissingFields => 400
    case InsertFailed(_) => 500
    case Created => 200
  }

  /** The user a header authenticates, if the service accepts its token without error. */
  function Authenticated(authHeader: Option<string>, auth: string -> AuthAnswer): Option<string> {
    if !Truthy(authHeader) then None
    else
      var answer := auth(ReplaceFirst(authHeader.value, "Bearer ", ""));
      if answer.error.Some? || answer.user.None? then None else answer.user
  }

  /**
   * `POST /api/comments`: the response and the row inserted, if any; `insert` answers
   * the database's error for a row, `None` when the insert succeeds.
   */
  function Post(authHeader: Option<string>, auth: string -> AuthAnswer, body: PostBody,
                insert: NewComment -> Option<string>): (r: (PostResponse, Option<NewComment>))
    ensures r.0 == Unauthorized <==> Authenticated(authHeader, auth).None?
    ensures r.0 == MissingFields <==> Authenticated(authHeader, auth).Some? && !(Truthy(body.articleUrl) && Truthy(body.content))
    ensures r.1.Some? <==> Authenticated(authHeader, auth).Some? && Truthy(body.articleUrl) && Truthy(body.content)
    ensures r.1.Some? ==> r.1.value == NewComment(Authenticated(authHeader, auth).value, body.articleUrl.value,
                                                  body.content.value, body.parentId, body.depth)
    ensures r.0 == Created <==> r.1.Some? && insert(r.1.value).None?
    ensures r.0.InsertFailed? <==> r.1.Some? && insert(r.1.value).Some?
    ensures r.0.InsertFailed? ==> r.0.message == insert(r.1.value).value
  {
    match Authenticated(authHeader, auth)
    case None => (Unauthorized, None)
    case Some(user) =>
      if !Truthy(body.articleUrl) || !Truthy(body.content) then (MissingFields, None)
      else
        var row := NewComment(user, body.articleUrl.value, body.content.value, body.parentId, body.depth);
        match insert(row)
        case Some(message) => (InsertFailed(message), Some(row))
        case None => (Created, Some(row))
  }

  /** A header without `Bearer ` is sent to the service whole as the token. */
  lemma TokenWithoutBearer(header: string, auth: string -> AuthAnswer)
    requires header != [] && !Contains(header, "Bearer ")
    ensures Authenticated(Some(header), auth) == (
      var answer := auth(header);
      if answer.error.Some? || answer.user.None? then None else answer.user)
  {
    ReplaceFirstAbsent(header, "Bearer ", "");
  }
}
