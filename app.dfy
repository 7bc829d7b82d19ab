/**
 * The request handlers of SNSApp/app.py as a state machine over the database and the
 * session's user id. Each handler returns an Outcome in place of the redirect, the
 * rendered page or the aborted request, and a flash Message in place of the flashed text.
 */
module App {
  import opened Wrappers
  import opened Text
  import opened Models

  datatype Page = LoginPage | SignupPage | PostsPage | PostDetailPage(postId: Id)

  /** The flashed messages, one per distinct text of the source. */
  datatype Message =
    | EmptyField        // a signup field is empty
    | PasswordMismatch  // the two passwords differ
    | MalformedEmail    // the email does not match EMAIL_PATTERN
    | EmailTaken        // the email is already registered
    | LoginFieldEmpty   // the login email or password is empty
    | LoginFailed       // the login email or password is wrong; one text for both
    | EmptyPost
    | PostCreated
    | CannotDelete      // the post belongs to someone else
    | PostDeleted
    | EmptyComment
    | CommentCreated

  /** A row as the templates receive it: with its author's name looked up. */
  datatype PostView = PostView(post: Post, userName: Option<string>)
  datatype CommentView = CommentView(comment: Comment, userName: Option<string>)

  datatype Outcome =
    | Redirect(to: Page, flash: Option<Message>)
    | NotFound     // abort(404)
    | ServerError  // an exception escaping the handler: a 500 response
    | ShowPosts(posts: seq<PostView>, userId: Id)
    | ShowPost(post: PostView, comments: seq<CommentView>, userId: Id)

  /** Emails as signup stores them: already stripped. */
  ghost predicate StoredEmailsStripped(users: seq<User>) {
    forall u :: u in users ==> Strip(u.email) == u.email
  }

  /** What a signup is missing: some field empty (name and email after stripping). */
  predicate SignupBlank(name: string, email: string, password: string, confirmation: string) {
    Strip(name) == [] || Strip(email) == [] || password == [] || confirmation == []
  }

  /**
   * The validation chain of signup_process, first failure wins: a blank field, then
   * differing passwords, then a malformed email, then an email already registered.
   * None means the user may be created.
   */
  function SignupCheck(name: string, email: string, password: string, confirmation: string, users: seq<User>): (r: Option<Message>)
    ensures r.Some? ==> r.value in {EmptyField, PasswordMismatch, MalformedEmail, EmailTaken}
  {
    var name, email := Strip(name), Strip(email);
    if name == [] || email == [] || password == [] || confirmation == [] then Some(EmptyField)
    else if password != confirmation then Some(PasswordMismatch)
    else if !MatchesEmailPattern(email) then Some(MalformedEmail)
    else if FindUserByEmail(users, email).Some? then Some(EmailTaken)
    else None
  }

  /**
   * What each verdict of the signup chain means: a failure message exactly when every
   * earlier check passes and its own fails, and None exactly when all four pass.
   */
  lemma SignupCheckMeaning(name: string, email: string, password: string, confirmation: string, users: seq<User>)
    ensures SignupCheck(name, email, password, confirmation, users) == Some(EmptyField) <==> SignupBlank(name, email, password, confirmation)
    ensures SignupCheck(name, email, password, confirmation, users) == Some(PasswordMismatch) <==>
      !SignupBlank(name, email, password, confirmation) && password != confirmation
    ensures SignupCheck(name, email, password, confirmation, users) == Some(MalformedEmail) <==>
      && !SignupBlank(name, email, password, confirmation) && password == confirmation
      && !InEmailLanguage(Strip(email))
    ensures SignupCheck(name, email, password, confirmation, users) == Some(EmailTaken) <==>
      && !SignupBlank(name, email, password, confirmation) && password == confirmation
      && InEmailLanguage(Strip(email)) && exists u :: u in users && u.email == Strip(email)
    ensures SignupCheck(name, email, password, confirmation, users) == None <==>
      && !SignupBlank(name, email, password, confirmation) && password == confirmation
      && InEmailLanguage(Strip(email)) && forall u :: u in users ==> u.email != Strip(email)
  {
    StrippedEmailMatch(email);
  }

  /** What a successful signup guarantees about its fields and the users table. */
  lemma SignupAccepted(name: string, email: string, password: string, confirmation: string, users: seq<User>)
    requires SignupCheck(name, email, password, confirmation, users).None?
    ensures Strip(name) != [] && Strip(email) != [] && password != [] && password == confirmation
    ensures InEmailLanguage(Strip(email))
    ensures forall u :: u in users ==> u.email != Strip(email)
  {
    SignupCheckMeaning(name, email, password, confirmation, users);
  }

  /** The user row a successful signup inserts: stripped name and email, unstripped password digested. */
  function SignupRow(id: Id, name: string, email: string, password: string, hash: string -> Digest): User {
    User(id, Strip(name), Strip(email), hash(password))
  }

  /**
   * The duplicate check precedes the insert, so a successful signup keeps emails unique:
   * SignupCheck returns None only when no user has the stripped email.
   */
  lemma SignupKeepsEmailsUnique(name: string, email: string, password: string,
                                users: seq<User>, id: Id, hash: string -> Digest)
    requires UniqueEmails(users)
    requires forall u :: u in users ==> u.email != Strip(email)
    ensures UniqueEmails(users + [SignupRow(id, name, email, password, hash)])
  {
    var r := users + [SignupRow(id, name, email, password, hash)];
    forall i, j | 0 <= i < j < |r| ensures r[i].email != r[j].email {
      assert r[i] == users[i];
      if j < |users| {
        assert r[j] == users[j];
      } else {
        assert users[i] in users;
      }
    }
  }

  datatype LoginVerdict = Accepted(id: Id) | Refused(reason: Message) | Crashed

  /**
   * The decision of login_process. The form fields are absent (None) when the request
   * lacks them; an absent email looks up no user, an absent password with a registered
   * email fails when it is encoded.
   */
  function LoginCheck(email: Option<string>, password: Option<string>, users: seq<User>, hash: string -> Digest): (r: LoginVerdict)
    ensures r.Accepted? ==> email.Some? && password.Some?
  {
    if email == Some([]) || password == Some([]) then Refused(LoginFieldEmpty)
    else
      var user := if email.None? then None else FindUserByEmail(users, email.value);
      if user.None? then Refused(LoginFailed)
      else if password.None? then Crashed
      else if hash(password.value) != user.value.password then Refused(LoginFailed)
      else Accepted(user.value.id)
  }

  /**
   * What the login verdicts mean: an empty field has its own message, every other refusal
   * is the one shared message, acceptance names a user with that email and digest, and the
   * handler crashes exactly when the password is missing for a registered email.
   */
  lemma LoginCheckMeaning(email: Option<string>, password: Option<string>, users: seq<User>, hash: string -> Digest)
    ensures LoginCheck(email, password, users, hash) == Refused(LoginFieldEmpty) <==> email == Some([]) || password == Some([])
    ensures var r := LoginCheck(email, password, users, hash); r.Refused? ==> r.reason == LoginFieldEmpty || r.reason == LoginFailed
    ensures var r := LoginCheck(email, password, users, hash); r.Accepted? ==>
      && email.Some? && password.Some? && password.value != []
      && exists u :: u in users && u.id == r.id && u.email == email.value && u.password == hash(password.value)
    ensures LoginCheck(email, password, users, hash).Crashed? <==>
      && email.Some? && email.value != [] && password.None?
      && exists u :: u in users && u.email == email.value
  {
  }

  /** With unique emails, a registered user who gives the right password is let in. */
  lemma LoginAcceptsRegistered(u: User, password: string, users: seq<User>, hash: string -> Digest)
    requires UniqueEmails(users) && u in users
    requires u.email != [] && password != [] && u.password == hash(password)
    ensures LoginCheck(Some(u.email), Some(password), users, hash) == Accepted(u.id)
  {
    FindUserByEmailUnique(users, u);
  }

  /**
   * An unknown email and a wrong password are refused alike: whatever the two tables, the
   * login gives the same verdict, so it does not tell which of the two was wrong.
   */
  lemma LoginHidesWhichCheckFailed(email: string, password: string, unknown: seq<User>, wrong: seq<User>,
                                   hash: string -> Digest)
    requires email != [] && password != []
    requires forall u :: u in unknown ==> u.email != email
    requires forall u :: u in wrong && u.email == email ==> u.password != hash(password)
    ensures LoginCheck(Some(email), Some(password), unknown, hash) == Refused(LoginFailed)
    ensures LoginCheck(Some(email), Some(password), wrong, hash) == Refused(LoginFailed)
  {
  }

  /**
   * A successful signup followed by a login with the stored email and the same password
   * lets the new user in. The requirements are what SignupCheck returning None guarantees.
   */
  lemma SignupThenLogin(name: string, email: string, password: string,
                        users: seq<User>, id: Id, hash: string -> Digest)
    requires Strip(email) != [] && password != []
    requires forall u :: u in users ==> u.email != Strip(email)
    ensures LoginCheck(Some(Strip(email)), Some(password),
                       users + [SignupRow(id, name, email, password, hash)], hash) == Accepted(id)
  {
    FindUserByEmailAfterInsert(users, SignupRow(id, name, email, password, hash));
  }

  /**
   * Signup strips the email but login does not: an email typed with surrounding
   * whitespace is stored stripped, and logging in with the same text never succeeds.
   */
  lemma LoginWithUnstrippedEmailFails(email: string, password: Option<string>, users: seq<User>, hash: string -> Digest)
    requires StoredEmailsStripped(users)
    requires Strip(email) != email
    ensures !LoginCheck(Some(email), password, users, hash).Accepted?
    ensures !LoginCheck(Some(email), password, users, hash).Crashed?
  {
    forall u | u in users ensures u.email != email {
      assert Strip(u.email) == u.email;
    }
  }

  datatype DeleteVerdict = Missing | Forbidden | Permitted

  /** The checks of delete_post: the post must be live, then it must be the session user's own. */
  function DeleteCheck(posts: seq<Post>, postId: Id, userId: Id): (r: DeleteVerdict)
    ensures r == Permitted ==> exists p :: p in posts && p.id == postId && p.userId == userId
  {
    match FindLivePost(posts, postId)
    case None => Missing
    case Some(p) => if p.userId != userId then Forbidden else Permitted
  }

  /**
   * What the delete verdicts mean: not found exactly when no live post has the id;
   * otherwise there is a live post with the id, and deleting is permitted exactly when the
   * session user owns it.
   */
  lemma DeleteCheckMeaning(posts: seq<Post>, postId: Id, userId: Id)
    ensures DeleteCheck(posts, postId, userId) == Missing <==> forall p :: p in posts && p.id == postId ==> p.deletedAt.Some?
    ensures var r := DeleteCheck(posts, postId, userId); r != Missing ==>
      exists p :: p in posts && p.id == postId && p.deletedAt.None? && (r == Permitted <==> p.userId == userId)
  {
  }

  /** A second delete of the same post is a 404, never a second soft delete, whoever asks. */
  lemma RepeatDeleteIsNotFound(posts: seq<Post>, postId: Id, now: Time, userId: Id)
    ensures DeleteCheck(SoftDelete(posts, postId, now), postId, userId) == Missing
  {
    SoftDeleteHides(posts, postId, now);
  }

  /** Rows annotated with their authors' names, as the handler's loops rewrite them. */
  function PostViews(posts: seq<Post>, users: seq<User>): seq<PostView> {
    seq(|posts|, i requires 0 <= i < |posts| => PostView(posts[i], UserName(users, posts[i].userId)))
  }

  function CommentViews(comments: seq<Comment>, users: seq<User>): seq<CommentView> {
    seq(|comments|, i requires 0 <= i < |comments| => CommentView(comments[i], UserName(users, comments[i].userId)))
  }

  /**
   * The web application: the database it talks to, the password digest, and the session
   * of the client whose request is being handled.
   */
  class Server {
    const db: Database
    /** hashlib.sha256(...).hexdigest(), left uninterpreted. */
    const hash: string -> Digest
    /** session['user_id'], None when nobody is logged in. */
    var session: Option<Id>

    ghost predicate Valid()
      reads db
    {
      db.Valid() && UniqueEmails(db.users) && StoredEmailsStripped(db.users)
    }

    constructor (db: Database, hash: string -> Digest)
      requires db.Valid() && UniqueEmails(db.users) && StoredEmailsStripped(db.users)
      ensures Valid() && this.db == db && this.hash == hash && session.None?
    {
      this.db := db;
      this.hash := hash;
      session := None;
    }

    /** The checks of signup_process, run in order until one fails; the last one queries the users table. */
    method ValidateSignup(name: string, email: string, password: string, confirmation: string) returns (err: Option<Message>)
      modifies db.pool
      ensures err == SignupCheck(name, email, password, confirmation, db.users)
      ensures db.pool.checkedOut == old(db.pool.checkedOut)
    {
      var n, e := Strip(name), Strip(email);
      if n == [] || e == [] || password == [] || confirmation == [] {
        return Some(EmptyField);
      }
      if password != confirmation {
        return Some(PasswordMismatch);
      }
      if !MatchesEmailPattern(e) {
        return Some(MalformedEmail);
      }
      var registered := db.FindByEmail(e);
      if registered.Some? {
        return Some(EmailTaken);
      }
      err := None;
    }

    /** POST /signup. */
    method SignupProcess(name: string, email: string, password: string, confirmation: string) returns (out: Outcome)
      requires Valid()
      modifies this, db, db.pool
      ensures Valid()
      ensures db.pool.checkedOut == old(db.pool.checkedOut)
      ensures SignupCheck(name, email, password, confirmation, old(db.users)).Some? ==>
        && out == Redirect(SignupPage, SignupCheck(name, email, password, confirmation, old(db.users)))
        && session == old(session) && unchanged(db)
      ensures SignupCheck(name, email, password, confirmation, old(db.users)).None? ==>
          && out == Redirect(PostsPage, None)
          && session == Some(old(db.nextUserId))
          && db.users == old(db.users) + [SignupRow(old(db.nextUserId), name, email, password, hash)]
          && db.nextUserId == old(db.nextUserId) + 1
          && db.posts == old(db.posts) && db.nextPostId == old(db.nextPostId)
          && db.comments == old(db.comments) && db.nextCommentId == old(db.nextCommentId)
    {
      var err := ValidateSignup(name, email, password, confirmation);
      if err.Some? {
        return Redirect(SignupPage, err);
      }
      SignupAccepted(name, email, password, confirmation, db.users);
      Register(name, email, password);
      out := Redirect(PostsPage, None);
    }

    /** The insert and session update of a signup whose checks all passed. */
    method Register(name: string, email: string, password: string)
      requires Valid()
      requires forall u :: u in db.users ==> u.email != Strip(email)
      modifies this, db, db.pool
      ensures Valid()
      ensures db.pool.checkedOut == old(db.pool.checkedOut)
      ensures session == Some(old(db.nextUserId))
      ensures db.users == old(db.users) + [SignupRow(old(db.nextUserId), name, email, password, hash)]
      ensures db.nextUserId == old(db.nextUserId) + 1
      ensures db.posts == old(db.posts) && db.nextPostId == old(db.nextPostId)
      ensures db.comments == old(db.comments) && db.nextCommentId == old(db.nextCommentId)
    {
      var hashed := hash(password);
      SignupKeepsEmailsUnique(name, email, password, db.users, db.nextUserId, hash);
      StripIdempotent(email);
      var id := db.CreateUser(Strip(name), Strip(email), hashed);
      session := Some(id);
    }

    /** POST /login. */
    method LoginProcess(email: Option<string>, password: Option<string>) returns (out: Outcome)
      requires Valid()
      modifies this, db.pool
      ensures Valid()
      ensures db.pool.checkedOut == old(db.pool.checkedOut)
      ensures match LoginCheck(email, password, db.users, hash)
        case Accepted(id) => out == Redirect(PostsPage, None) && session == Some(id)
        case Refused(m) => out == Redirect(LoginPage, Some(m)) && session == old(session)
        case Crashed => out == ServerError && session == old(session)
    {
      if email == Some([]) || password == Some([]) {
        return Redirect(LoginPage, Some(LoginFieldEmpty));
      }
      var user: Option<User> := None;
      if email.Some? {
        // with email None the query compares against NULL and finds no row
        user := db.FindByEmail(email.value);
      }
      if user.None? {
        return Redirect(LoginPage, Some(LoginFailed));
      }
      if password.None? {
        // None.encode('utf-8') raises
        return ServerError;
      }
      if hash(password.value) != user.value.password {
        return Redirect(LoginPage, Some(LoginFailed));
      }
      session := Some(user.value.id);
      out := Redirect(PostsPage, None);
    }

    /** GET /logout: forgets the session, whoever was logged in. */
    method Logout() returns (out: Outcome)
      modifies this
      ensures old(Valid()) ==> Valid()
      ensures session.None? && out == Redirect(LoginPage, None)
    {
      session := None;
      out := Redirect(LoginPage, None);
    }

    /** The loop of posts_view: each post gets its author's name, looked up one query at a time. */
    method NamePostAuthors(posts: seq<Post>) returns (views: seq<PostView>)
      modifies db.pool
      ensures views == PostViews(posts, db.users)
      ensures db.pool.checkedOut == old(db.pool.checkedOut)
    {
      views := [];
      var i := 0;
      while i < |posts|
        invariant i <= |posts|
        invariant |views| == i
        invariant forall k :: 0 <= k < i ==> views[k] == PostView(posts[k], UserName(db.users, posts[k].userId))
        invariant db.pool.checkedOut == old(db.pool.checkedOut)
      {
        var name := db.GetNameById(posts[i].userId);
        views := views + [PostView(posts[i], name)];
        i := i + 1;
      }
    }

    /** The loop of post_detail_view: each comment gets its author's name. */
    method NameCommentAuthors(comments: seq<Comment>) returns (views: seq<CommentView>)
      modifies db.pool
      ensures views == CommentViews(comments, db.users)
      ensures db.pool.checkedOut == old(db.pool.checkedOut)
    {
      views := [];
      var i := 0;
      while i < |comments|
        invariant i <= |comments|
        invariant |views| == i
        invariant forall k :: 0 <= k < i ==> views[k] == CommentView(comments[k], UserName(db.users, comments[k].userId))
        invariant db.pool.checkedOut == old(db.pool.checkedOut)
      {
        var name := db.GetNameById(comments[i].userId);
        views := views + [CommentView(comments[i], name)];
        i := i + 1;
      }
    }

    /** GET /posts: the live posts, newest first, each with its author's name. */
    method PostsView() returns (out: Outcome)
      modifies db.pool
      ensures db.pool.checkedOut == old(db.pool.checkedOut)
      ensures session.None? ==> out == Redirect(LoginPage, None)
      ensures session.Some? ==> out == ShowPosts(PostViews(Timeline(db.posts), db.users), session.value)
    {
      if session.None? {
        return Redirect(LoginPage, None);
      }
      var posts := db.GetAllPosts();
      var views := NamePostAuthors(posts);
      out := ShowPosts(views, session.value);
    }

    /** POST /posts: stores the stripped content as a new post of the session user. */
    method CreatePost(content: string, now: Time) returns (out: Outcome)
      requires Valid()
      modifies db, db.pool
      ensures Valid()
      ensures db.pool.checkedOut == old(db.pool.checkedOut)
      ensures session.None? ==> out == Redirect(LoginPage, None) && unchanged(db)
      ensures session.Some? && Strip(content) == [] ==> out == Redirect(PostsPage, Some(EmptyPost)) && unchanged(db)
      ensures session.Some? && Strip(content) != [] ==>
        && out == Redirect(PostsPage, Some(PostCreated))
        && db.posts == old(db.posts) + [Post(old(db.nextPostId), session.value, Strip(content), now, None)]
        && db.nextPostId == old(db.nextPostId) + 1
        && db.users == old(db.users) && db.nextUserId == old(db.nextUserId)
        && db.comments == old(db.comments) && db.nextCommentId == old(db.nextCommentId)
    {
      if session.None? {
        return Redirect(LoginPage, None);
      }
      var c := Strip(content);
      if c == [] {
        return Redirect(PostsPage, Some(EmptyPost));
      }
      db.CreatePost(session.value, c, now);
      out := Redirect(PostsPage, Some(PostCreated));
    }

    /** POST /posts/<post_id>/delete: only the owner's request soft-deletes a live post. */
    method DeletePost(postId: Id, now: Time) returns (out: Outcome)
      requires Valid()
      modifies db, db.pool
      ensures Valid()
      ensures db.pool.checkedOut == old(db.pool.checkedOut)
      ensures session.None? ==> out == Redirect(LoginPage, None) && unchanged(db)
      ensures session.Some? ==> match DeleteCheck(old(db.posts), postId, session.value)
        case Missing => out == NotFound && unchanged(db)
        case Forbidden => out == Redirect(PostsPage, Some(CannotDelete)) && unchanged(db)
        case Permitted =>
          && out == Redirect(PostsPage, Some(PostDeleted))
          && db.posts == SoftDelete(old(db.posts), postId, now) && db.nextPostId == old(db.nextPostId)
          && db.users == old(db.users) && db.nextUserId == old(db.nextUserId)
          && db.comments == old(db.comments) && db.nextCommentId == old(db.nextCommentId)
    {
      if session.None? {
        return Redirect(LoginPage, None);
      }
      var post := db.FindPostById(postId);
      if post.None? {
        return NotFound;
      }
      if post.value.userId != session.value {
        return Redirect(PostsPage, Some(CannotDelete));
      }
      db.DeletePost(postId, now);
      out := Redirect(PostsPage, Some(PostDeleted));
    }

    /** GET /posts/<post_id>: a live post and all its comments, newest first, with authors' names. */
    method PostDetailView(postId: Id) returns (out: Outcome)
      modifies db.pool
      ensures db.pool.checkedOut == old(db.pool.checkedOut)
      ensures session.None? ==> out == Redirect(LoginPage, None)
      ensures session.Some? ==> match FindLivePost(db.posts, postId)
        case None => out == NotFound
        case Some(p) =>
          out == ShowPost(PostView(p, UserName(db.users, p.userId)),
                          CommentViews(Thread(db.comments, postId), db.users), session.value)
    {
      if session.None? {
        return Redirect(LoginPage, None);
      }
      var post := db.FindPostById(postId);
      if post.None? {
        return NotFound;
      }
      var author := db.GetNameById(post.value.userId);
      var comments := db.GetCommentsByPostId(postId);
      var views := NameCommentAuthors(comments);
      out := ShowPost(PostView(post.value, author), views, session.value);
    }

    /** POST /posts/<post_id>/comments: stores the stripped content, whether or not the post exists. */
    method CreateComment(postId: Id, content: string, now: Time) returns (out: Outcome)
      requires Valid()
      modifies db, db.pool
      ensures Valid()
      ensures db.pool.checkedOut == old(db.pool.checkedOut)
      ensures session.None? ==> out == Redirect(LoginPage, None) && unchanged(db)
      ensures session.Some? && Strip(content) == [] ==>
        out == Redirect(PostDetailPage(postId), Some(EmptyComment)) && unchanged(db)
      ensures session.Some? && Strip(content) != [] ==>
        && out == Redirect(PostDetailPage(postId), Some(CommentCreated))
        && db.comments == old(db.comments) + [Comment(old(db.nextCommentId), session.value, postId, Strip(content), now)]
        && db.nextCommentId == old(db.nextCommentId) + 1
        && db.users == old(db.users) && db.nextUserId == old(db.nextUserId)
        && db.posts == old(db.posts) && db.nextPostId == old(db.nextPostId)
    {
      if session.None? {
        return Redirect(LoginPage, None);
      }
      var c := Strip(content);
      if c == [] {
        return Redirect(PostDetailPage(postId), Some(EmptyComment));
      }
      db.CreateComment(session.value, postId, c, now);
      out := Redirect(PostDetailPage(postId), Some(CommentCreated));
    }
  }

  /**
   * The first end-to-end scenario and its sequel: a valid signup lands on the posts list
   * logged in as the new user; after logging out, logging in with the stored email and
   * the same password logs that user in again.
   */
  method SignupLogoutLogin(server: Server, name: string, email: string, password: string)
      returns (signedUp: Outcome, loggedIn: Outcome)
    requires server.Valid()
    requires SignupCheck(name, email, password, password, server.db.users).None?
    modifies server, server.db, server.db.pool
    ensures signedUp == Redirect(PostsPage, None) && loggedIn == Redirect(PostsPage, None)
    ensures server.session == Some(old(server.db.nextUserId))
  {
    ghost var users, id := server.db.users, server.db.nextUserId;
    var e := Strip(email);
    SignupAccepted(name, email, password, password, users);
    SignupThenLogin(name, email, password, users, id, server.hash);
    ghost var verdict := LoginCheck(Some(e), Some(password), users + [SignupRow(id, name, email, password, server.hash)], server.hash);
    assert verdict == Accepted(id);
    signedUp := server.SignupProcess(name, email, password, password);
    var _ := server.Logout();
    loggedIn := server.LoginProcess(Some(e), Some(password));
  }
}
