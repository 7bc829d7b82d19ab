/**
 * The data-access layer of SNSApp/models.py: the users, posts and comments tables as
 * sequences of rows in insertion order, AUTO_INCREMENT id counters, and one method per
 * repository operation. Each method runs its one SQL statement as an operation on the
 * tables, and takes a connection from the pool and gives it back on the way out.
 */
module Models {
  import opened Wrappers

  type Id = nat
  /** A timestamp read from the database clock, which callers supply. */
  type Time = nat
  /** A password digest as stored in users.password. */
  type Digest = string

  datatype User = User(id: Id, name: string, email: string, password: Digest)

  /** deletedAt is the soft-delete marker: None while the post is live. */
  datatype Post = Post(id: Id, userId: Id, content: string, createdAt: Time, deletedAt: Option<Time>)

  datatype Comment = Comment(id: Id, userId: Id, postId: Id, content: string, createdAt: Time)

  function UserKey(u: User): Id { u.id }
  function PostKey(p: Post): Id { p.id }
  function CommentKey(c: Comment): Id { c.id }
  function PostTime(p: Post): Time { p.createdAt }
  function CommentTime(c: Comment): Time { c.createdAt }

  /**
   * The ids of a table as AUTO_INCREMENT hands them out: from 1, strictly increasing in
   * insertion order, and all below the table's next id.
   */
  ghost predicate Keyed<T>(rows: seq<T>, key: T -> Id, next: Id) {
    && 1 <= next
    && (forall i :: 0 <= i < |rows| ==> 1 <= key(rows[i]) < next)
    && (forall i, j :: 0 <= i < j < |rows| ==> key(rows[i]) < key(rows[j]))
  }

  /** Appending a row that carries the next id keeps a table keyed, one id further on. */
  lemma KeyedAppend<T>(rows: seq<T>, key: T -> Id, next: Id, x: T)
    requires Keyed(rows, key, next) && key(x) == next
    ensures Keyed(rows + [x], key, next + 1)
  {
    var r := rows + [x];
    forall i | 0 <= i < |r| ensures 1 <= key(r[i]) < next + 1 {
      if i < |rows| { assert r[i] == rows[i]; }
    }
    forall i, j | 0 <= i < j < |r| ensures key(r[i]) < key(r[j]) {
      assert r[i] == rows[i];
      if j < |rows| { assert r[j] == rows[j]; }
    }
  }

  /** Rows ordered by `ORDER BY created_at DESC`. */
  predicate NewestFirst<T>(rows: seq<T>, at: T -> Time) {
    forall i, j :: 0 <= i < j < |rows| ==> at(rows[i]) >= at(rows[j])
  }

  /** Places x before the first row that is not newer than it. */
  function InsertNewestFirst<T>(x: T, rows: seq<T>, at: T -> Time): (r: seq<T>)
    ensures |r| == |rows| + 1
  {
    if rows == [] || at(x) >= at(rows[0]) then [x] + rows
    else [rows[0]] + InsertNewestFirst(x, rows[1..], at)
  }

  /** Inserting adds exactly the one row and loses none. */
  lemma {:induction false} InsertNewestFirstPermutes<T>(x: T, rows: seq<T>, at: T -> Time)
    ensures multiset(InsertNewestFirst(x, rows, at)) == multiset(rows) + multiset{x}
  {
    if rows != [] && at(x) < at(rows[0]) {
      assert rows == [rows[0]] + rows[1..];
      InsertNewestFirstPermutes(x, rows[1..], at);
    }
  }

  /** Inserting into newest-first rows keeps them newest first; the head is x or the old head. */
  lemma {:induction false} InsertNewestFirstOrders<T>(x: T, rows: seq<T>, at: T -> Time)
    requires NewestFirst(rows, at)
    ensures var r := InsertNewestFirst(x, rows, at); r[0] == x || (rows != [] && r[0] == rows[0])
    ensures NewestFirst(InsertNewestFirst(x, rows, at), at)
  {
    if rows != [] && at(x) < at(rows[0]) {
      InsertNewestFirstOrders(x, rows[1..], at);
      var tail := InsertNewestFirst(x, rows[1..], at);
      assert at(tail[0]) <= at(rows[0]);
      var r := [rows[0]] + tail;
      forall i, j | 0 <= i < j < |r| ensures at(r[i]) >= at(r[j]) {
        if i > 0 {
          assert r[i] == tail[i - 1] && r[j] == tail[j - 1];
        } else if j > 1 {
          assert at(tail[0]) >= at(tail[j - 1]);
        }
      }
    }
  }

  /** The rows of a query with `ORDER BY created_at DESC`: the same rows, newest first. */
  function SortNewestFirst<T>(rows: seq<T>, at: T -> Time): (r: seq<T>)
    ensures multiset(r) == multiset(rows)
    ensures NewestFirst(r, at)
  {
    if rows == [] then []
    else
      var sorted := SortNewestFirst(rows[1..], at);
      InsertNewestFirstPermutes(rows[0], sorted, at);
      InsertNewestFirstOrders(rows[0], sorted, at);
      assert rows == [rows[0]] + rows[1..];
      InsertNewestFirst(rows[0], sorted, at)
  }

  /** `SELECT * FROM users WHERE email=%s` with fetchone: the first user with that email. */
  function FindUserByEmail(users: seq<User>, email: string): (r: Option<User>)
    ensures r.Some? ==> r.value in users && r.value.email == email
    ensures r.None? <==> forall u :: u in users ==> u.email != email
  {
    if users == [] then None
    else if users[0].email == email then Some(users[0])
    else FindUserByEmail(users[1..], email)
  }

  /** A user appended to the table is found by its email when no earlier user has it. */
  lemma {:induction false} FindUserByEmailAfterInsert(users: seq<User>, u: User)
    requires forall v :: v in users ==> v.email != u.email
    ensures FindUserByEmail(users + [u], u.email) == Some(u)
  {
    if users != [] {
      assert (users + [u])[1..] == users[1..] + [u];
      FindUserByEmailAfterInsert(users[1..], u);
    }
  }

  /** No two users share an email. */
  ghost predicate UniqueEmails(users: seq<User>) {
    forall i, j :: 0 <= i < j < |users| ==> users[i].email != users[j].email
  }

  /** When emails are unique, the lookup by email finds the one user who has it. */
  lemma {:induction false} FindUserByEmailUnique(users: seq<User>, u: User)
    requires UniqueEmails(users) && u in users
    ensures FindUserByEmail(users, u.email) == Some(u)
  {
    if users[0] != u {
      assert u in users[1..];
      FindUserByEmailUnique(users[1..], u);
    }
  }

  /** `SELECT name FROM users WHERE id=%s`: the name of the user with that id, if any. */
  function UserName(users: seq<User>, id: Id): (r: Option<string>)
    ensures r.Some? ==> exists u :: u in users && u.id == id && u.name == r.value
    ensures r.None? <==> forall u :: u in users ==> u.id != id
  {
    if users == [] then None
    else if users[0].id == id then Some(users[0].name)
    else UserName(users[1..], id)
  }

  /** `WHERE deleted_at IS NULL`: exactly the posts not soft-deleted, each as often as in the table. */
  function LivePosts(posts: seq<Post>): (r: seq<Post>)
    ensures forall p :: multiset(r)[p] == if p.deletedAt.None? then multiset(posts)[p] else 0
  {
    if posts == [] then []
    else
      assert posts == [posts[0]] + posts[1..];
      (if posts[0].deletedAt.None? then [posts[0]] else []) + LivePosts(posts[1..])
  }

  /** The rows of Post.get_all: every live post and only those, newest first. */
  function Timeline(posts: seq<Post>): (r: seq<Post>)
    ensures forall p :: multiset(r)[p] == if p.deletedAt.None? then multiset(posts)[p] else 0
    ensures NewestFirst(r, PostTime)
  {
    SortNewestFirst(LivePosts(posts), PostTime)
  }

  /** Post.get_all lists exactly the live posts: each listed row is a live row of the table, each live row is listed. */
  lemma TimelineIsLivePosts(posts: seq<Post>)
    ensures forall p :: p in Timeline(posts) <==> p in posts && p.deletedAt.None?
  {
    var t := Timeline(posts);
    forall p ensures p in t <==> p in posts && p.deletedAt.None? {
      assert p in t <==> multiset(t)[p] > 0;
      assert p in posts <==> multiset(posts)[p] > 0;
    }
  }

  /** `SELECT * FROM posts WHERE id=%s AND deleted_at IS NULL` with fetchone. */
  function FindLivePost(posts: seq<Post>, id: Id): (r: Option<Post>)
    ensures r.Some? ==> r.value in posts && r.value.id == id && r.value.deletedAt.None?
    ensures r.None? <==> forall p :: p in posts && p.id == id ==> p.deletedAt.Some?
  {
    if posts == [] then None
    else if posts[0].id == id && posts[0].deletedAt.None? then Some(posts[0])
    else FindLivePost(posts[1..], id)
  }

  /**
   * `UPDATE posts SET deleted_at = NOW() WHERE id = %s`: every row with that id gets the
   * marker (even one already deleted), every other row stays as it was, no row goes away.
   */
  function SoftDelete(posts: seq<Post>, id: Id, now: Time): (r: seq<Post>)
    ensures |r| == |posts|
    ensures forall i :: 0 <= i < |posts| && posts[i].id == id ==> r[i] == posts[i].(deletedAt := Some(now))
    ensures forall i :: 0 <= i < |posts| && posts[i].id != id ==> r[i] == posts[i]
  {
    if posts == [] then []
    else
      var head := if posts[0].id == id then posts[0].(deletedAt := Some(now)) else posts[0];
      [head] + SoftDelete(posts[1..], id, now)
  }

  /** `WHERE post_id=%s`: exactly the comments on that post, each as often as in the table. */
  function CommentsOn(comments: seq<Comment>, postId: Id): (r: seq<Comment>)
    ensures forall c :: multiset(r)[c] == if c.postId == postId then multiset(comments)[c] else 0
  {
    if comments == [] then []
    else
      assert comments == [comments[0]] + comments[1..];
      (if comments[0].postId == postId then [comments[0]] else []) + CommentsOn(comments[1..], postId)
  }

  /** The rows of Comment.get_by_post_id: every comment on the post, newest first. */
  function Thread(comments: seq<Comment>, postId: Id): (r: seq<Comment>)
    ensures forall c :: multiset(r)[c] == if c.postId == postId then multiset(comments)[c] else 0
    ensures NewestFirst(r, CommentTime)
  {
    SortNewestFirst(CommentsOn(comments, postId), CommentTime)
  }

  /** After a soft delete the post is gone from both read paths: find_by_id and get_all. */
  lemma {:induction false} SoftDeleteHides(posts: seq<Post>, id: Id, now: Time)
    ensures FindLivePost(SoftDelete(posts, id, now), id).None?
    ensures forall p :: p in Timeline(SoftDelete(posts, id, now)) ==> p.id != id
  {
    var r := SoftDelete(posts, id, now);
    forall p | p in r && p.id == id ensures p.deletedAt.Some? {
      var i :| 0 <= i < |r| && r[i] == p;
    }
    forall p | p in Timeline(r) ensures p.id != id {
      assert multiset(Timeline(r))[p] > 0;
      assert p in r;
    }
  }

  /** A soft delete does not change what find_by_id returns for any other id. */
  lemma {:induction false} SoftDeleteKeepsOtherLookups(posts: seq<Post>, id: Id, now: Time, other: Id)
    requires other != id
    ensures FindLivePost(SoftDelete(posts, id, now), other) == FindLivePost(posts, other)
  {
    if posts != [] {
      SoftDeleteKeepsOtherLookups(posts[1..], id, now, other);
      assert SoftDelete(posts, id, now)[1..] == SoftDelete(posts[1..], id, now);
    }
  }

  /** A soft delete does not change whether, or how often, any other post is listed by get_all. */
  lemma SoftDeleteKeepsOtherListings(posts: seq<Post>, id: Id, now: Time)
    ensures forall p: Post :: p.id != id ==> multiset(Timeline(SoftDelete(posts, id, now)))[p] == multiset(Timeline(posts))[p]
  {
    var r := SoftDelete(posts, id, now);
    forall p: Post | p.id != id ensures multiset(r)[p] == multiset(posts)[p] {
      MultisetSameAway(posts, r, id, now, p);
    }
  }

  /** Rows that the soft delete does not touch occur equally often before and after it. */
  lemma {:induction false} MultisetSameAway(posts: seq<Post>, r: seq<Post>, id: Id, now: Time, p: Post)
    requires r == SoftDelete(posts, id, now) && p.id != id
    ensures multiset(r)[p] == multiset(posts)[p]
  {
    if posts != [] {
      assert posts == [posts[0]] + posts[1..];
      assert r == [r[0]] + r[1..];
      assert r[1..] == SoftDelete(posts[1..], id, now);
      MultisetSameAway(posts[1..], r[1..], id, now, p);
      assert (r[0] == p) == (posts[0] == p);
    }
  }

  /**
   * The database connection pool. Only the number of checked-out connections is modelled;
   * the pool itself is a library outside this model.
   */
  class Pool {
    var checkedOut: nat

    constructor ()
      ensures checkedOut == 0
    {
      checkedOut := 0;
    }

    method GetConn()
      modifies this
      ensures checkedOut == old(checkedOut) + 1
    {
      checkedOut := checkedOut + 1;
    }

    method Release()
      requires checkedOut > 0
      modifies this
      ensures checkedOut == old(checkedOut) - 1
    {
      checkedOut := checkedOut - 1;
    }
  }

  /**
   * The three tables and their AUTO_INCREMENT counters, reached through a pool. The
   * repository classes User, Post and Comment of the source are stateless namespaces over
   * one shared database; here their operations are the methods of that database.
   */
  class Database {
    var users: seq<User>
    var posts: seq<Post>
    var comments: seq<Comment>
    var nextUserId: Id
    var nextPostId: Id
    var nextCommentId: Id
    const pool: Pool

    ghost predicate Valid()
      reads this
    {
      && Keyed(users, UserKey, nextUserId)
      && Keyed(posts, PostKey, nextPostId)
      && Keyed(comments, CommentKey, nextCommentId)
    }

    /** Empty tables whose AUTO_INCREMENT counters start at 1. */
    constructor (pool: Pool)
      ensures Valid() && this.pool == pool
      ensures users == [] && posts == [] && comments == []
      ensures nextUserId == 1 && nextPostId == 1 && nextCommentId == 1
    {
      this.pool := pool;
      users, posts, comments := [], [], [];
      nextUserId, nextPostId, nextCommentId := 1, 1, 1;
    }

    /** User.create: inserts one user and returns its fresh AUTO_INCREMENT id. */
    method CreateUser(name: string, email: string, password: Digest) returns (id: Id)
      requires Valid()
      modifies this, pool
      ensures Valid()
      ensures id == old(nextUserId) && forall u :: u in old(users) ==> u.id < id
      ensures users == old(users) + [User(id, name, email, password)] && nextUserId == id + 1
      ensures posts == old(posts) && nextPostId == old(nextPostId)
      ensures comments == old(comments) && nextCommentId == old(nextCommentId)
      ensures pool.checkedOut == old(pool.checkedOut)
    {
      pool.GetConn();
      id := nextUserId;
      KeyedAppend(users, UserKey, nextUserId, User(id, name, email, password));
      users := users + [User(id, name, email, password)];
      nextUserId := nextUserId + 1;
      pool.Release();
    }

    /** User.find_by_email. */
    method FindByEmail(email: string) returns (r: Option<User>)
      modifies pool
      ensures r == FindUserByEmail(users, email)
      ensures pool.checkedOut == old(pool.checkedOut)
    {
      pool.GetConn();
      r := FindUserByEmail(users, email);
      pool.Release();
    }

    /** User.get_name_by_id. */
    method GetNameById(id: Id) returns (r: Option<string>)
      modifies pool
      ensures r == UserName(users, id)
      ensures pool.checkedOut == old(pool.checkedOut)
    {
      pool.GetConn();
      r := UserName(users, id);
      pool.Release();
    }

    /** Post.get_all: every live post, newest first. */
    method GetAllPosts() returns (r: seq<Post>)
      modifies pool
      ensures r == Timeline(posts)
      ensures pool.checkedOut == old(pool.checkedOut)
    {
      pool.GetConn();
      r := Timeline(posts);
      pool.Release();
    }

    /** Post.create: inserts one live post stamped with the current time. */
    method CreatePost(userId: Id, content: string, now: Time)
      requires Valid()
      modifies this, pool
      ensures Valid()
      ensures posts == old(posts) + [Post(old(nextPostId), userId, content, now, None)]
      ensures nextPostId == old(nextPostId) + 1
      ensures users == old(users) && nextUserId == old(nextUserId)
      ensures comments == old(comments) && nextCommentId == old(nextCommentId)
      ensures pool.checkedOut == old(pool.checkedOut)
    {
      pool.GetConn();
      KeyedAppend(posts, PostKey, nextPostId, Post(nextPostId, userId, content, now, None));
      posts := posts + [Post(nextPostId, userId, content, now, None)];
      nextPostId := nextPostId + 1;
      pool.Release();
    }

    /** Post.delete: soft-deletes the row with that id; no row is removed. */
    method DeletePost(id: Id, now: Time)
      requires Valid()
      modifies this, pool
      ensures Valid()
      ensures posts == SoftDelete(old(posts), id, now) && nextPostId == old(nextPostId)
      ensures users == old(users) && nextUserId == old(nextUserId)
      ensures comments == old(comments) && nextCommentId == old(nextCommentId)
      ensures pool.checkedOut == old(pool.checkedOut)
    {
      pool.GetConn();
      posts := SoftDelete(posts, id, now);
      pool.Release();
    }

    /** Post.find_by_id: the post with that id if it is live, None otherwise. */
    method FindPostById(id: Id) returns (r: Option<Post>)
      modifies pool
      ensures r == FindLivePost(posts, id)
      ensures pool.checkedOut == old(pool.checkedOut)
    {
      pool.GetConn();
      r := FindLivePost(posts, id);
      pool.Release();
    }

    /** Comment.create: inserts one comment; whether the post exists is not checked. */
    method CreateComment(userId: Id, postId: Id, content: string, now: Time)
      requires Valid()
      modifies this, pool
      ensures Valid()
      ensures comments == old(comments) + [Comment(old(nextCommentId), userId, postId, content, now)]
      ensures nextCommentId == old(nextCommentId) + 1
      ensures users == old(users) && nextUserId == old(nextUserId)
      ensures posts == old(posts) && nextPostId == old(nextPostId)
      ensures pool.checkedOut == old(pool.checkedOut)
    {
      pool.GetConn();
      KeyedAppend(comments, CommentKey, nextCommentId, Comment(nextCommentId, userId, postId, content, now));
      comments := comments + [Comment(nextCommentId, userId, postId, content, now)];
      nextCommentId := nextCommentId + 1;
      pool.Release();
    }

    /** Comment.get_by_post_id: every comment on the post, newest first, deleted post or not. */
    method GetCommentsByPostId(postId: Id) returns (r: seq<Comment>)
      modifies pool
      ensures r == Thread(comments, postId)
      ensures pool.checkedOut == old(pool.checkedOut)
    {
      pool.GetConn();
      r := Thread(comments, postId);
      pool.Release();
    }
  }
}
