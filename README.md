# SNSApp in Dafny

A model of the core of a small social-posting web application (RareTECH-Mentor's
hackathon-beginners-sample-sns). The application has users who sign up and log in, posts
they write and soft-delete, and comments on posts. Two layers are modelled:

- **The data-access layer** (`SNSApp/models.py`), in `models.dfy`. The `users`, `posts` and
  `comments` tables are sequences of rows in insertion order, with one AUTO_INCREMENT
  counter per table. They live in a `Database` object that reaches a `Pool` of connections.
  The repository classes `User`, `Post` and `Comment` only group stateless class methods, so
  each of their operations becomes a method of `Database`. The method's SQL statement is
  stated as a function on the tables (`FindUserByEmail`, `Timeline`, `FindLivePost`,
  `SoftDelete`, `Thread`, ...). Every method takes a connection and gives it back, so the
  pool's checked-out count is the same after each call.
- **The request handlers** (`SNSApp/app.py`), in `app.dfy`. They form a state machine over the
  database and the session's user id, held by a `Server` object. Each handler returns an
  `Outcome` in place of the HTTP response: a redirect with an optional flash `Message`, a
  404, a 500, or the data a page is rendered from. The validation chains are pure
  functions: `SignupCheck`, `LoginCheck` and `DeleteCheck`, and a lemma beside each states
  what its verdicts mean. Each handler method is proved to follow its function.
- **String handling** (`text.dfy`): Python's `str.strip()` with Python's whitespace set, and
  the `EMAIL_PATTERN` regular expression. The pattern is stated twice: as the regular
  language it denotes, and as the check "first `@`, then the domain's first `.`". The two
  are proved equal.

Behaviours of the code that the model keeps and states:

- Signup strips the name and the email but not the password or its confirmation. Login
  strips nothing. So, under exact email comparison, an email typed with surrounding spaces at signup can never be used to
  log in with the same text (`LoginWithUnstrippedEmailFails`).
- `re.match` with `$` also accepts a string that ends in a newline
  (`NewlineBeforeEnd`). Signup strips the email first, so this never matters there
  (`StrippedEmailMatch`).
- Login reads its form fields without defaults, so a field may be missing. A missing email
  finds no user and gets the "wrong email or password" message. A missing password for a
  registered email makes `None.encode` raise, which Flask answers with a 500
  (`LoginVerdict.Crashed`, `Outcome.ServerError`).
- `UPDATE posts SET deleted_at = NOW() WHERE id = %s` would overwrite the marker of a post
  that is already deleted. `delete_post` never reaches it for such a post, because
  `find_by_id` returns nothing first.
- `create_comment` inserts the comment without checking that the post exists or is live.
- The session's user id is trusted as it is. A name lookup for a user who does not exist
  gives `None`.

Further facts of the code the model keeps:

- Signup trims only the name and the email, not the password or its confirmation
  (`SNSApp/app.py:42-45`).
- A missing login field is treated differently from an empty one (`SNSApp/app.py:88-91`).
- `create_comment` does not check that the post exists or is live (`SNSApp/app.py:191`).

## Model

| member | source | states |
|---|---|---|
| `Text.Strip` | SNSApp/app.py:42-43 | Python's `str.strip()`; its own contract only bounds the length, and its meaning is carried by `StripMeaning` |
| `Text.StripMeaning` | SNSApp/app.py:42-43 | the result is the middle of the input between its leading and trailing whitespace; it is empty exactly when the input is all whitespace, and otherwise starts and ends with a non-space |
| `Text.StripIdempotent` | SNSApp/app.py:43 | stripping a stripped string changes nothing, so stored emails stay stripped |
| `Text.IsEmailInLanguage` | SNSApp/app.py:13 | every string the first-`@`/first-`.` check accepts is in the language of EMAIL_PATTERN |
| `Text.InLanguageIsEmail` | SNSApp/app.py:13 | every string of the language of EMAIL_PATTERN passes the check |
| `Text.IsEmailIffInLanguage` | SNSApp/app.py:13 | the check accepts exactly the language of EMAIL_PATTERN (both directions) |
| `Text.StrippedEmailMatch` | SNSApp/app.py:43-58 | on a stripped email, `re.match` with the pattern succeeds exactly when the email is in the pattern's language |
| `Text.MatchesEmailPattern` | SNSApp/app.py:13-58 | `re.match(EMAIL_PATTERN, s)` succeeds; its own contract says a match contains an `@`, and its meaning is carried by `StrippedEmailMatch` and `NewlineBeforeEnd` |
| `Text.NewlineBeforeEnd` | SNSApp/app.py:13 | `$` lets "a@b.c" followed by a newline match although it is not in the language |
| `Models.KeyedAppend` | SNSApp/models.py:17-21 | inserting a row with the next AUTO_INCREMENT id keeps ids positive, below the counter and increasing |
| `Models.InsertNewestFirstPermutes` | SNSApp/models.py:65 | placing a row into a list adds exactly that row and loses none |
| `Models.InsertNewestFirstOrders` | SNSApp/models.py:65 | placing a row into a newest-first list keeps it newest first |
| `Models.SortNewestFirst` | SNSApp/models.py:65 | `ORDER BY created_at DESC` returns the same rows (as a multiset), in non-increasing created_at |
| `Models.FindUserByEmail` | SNSApp/models.py:33-36 | returns a user with exactly that email, or none when no user has it |
| `Models.FindUserByEmailAfterInsert` | SNSApp/models.py:17-36 | a newly inserted user is found by its email when no earlier user has that email |
| `Models.FindUserByEmailUnique` | SNSApp/models.py:33-36 | when emails are unique, the lookup returns the one user who has the email |
| `Models.UserName` | SNSApp/models.py:48-51 | returns the name of a user with that id, or none when no user has the id |
| `Models.LivePosts` | SNSApp/models.py:65 | `WHERE deleted_at IS NULL` keeps every live row as often as it occurs and drops every deleted row |
| `Models.Timeline` | SNSApp/models.py:65-68 | Post.get_all returns exactly the posts whose deleted_at is null, in non-increasing created_at |
| `Models.TimelineIsLivePosts` | SNSApp/models.py:65 | a post is listed by get_all if and only if it is in the table and not soft-deleted |
| `Models.FindLivePost` | SNSApp/models.py:108-111 | returns a post with that id only if its deleted_at is null; none exactly when every row with that id is deleted |
| `Models.SoftDelete` | SNSApp/models.py:94-96 | every row with the id gets deleted_at = now, every other row is unchanged, and no row is removed |
| `Models.SoftDeleteHides` | SNSApp/models.py:65-108 | after the update the post is found by neither find_by_id nor get_all |
| `Models.SoftDeleteKeepsOtherLookups` | SNSApp/models.py:94-108 | the update does not change find_by_id for any other id |
| `Models.SoftDeleteKeepsOtherListings` | SNSApp/models.py:65-94 | the update does not change how often get_all lists any post with another id |
| `Models.CommentsOn` | SNSApp/models.py:138 | `WHERE post_id=%s` keeps exactly the comments on that post, whatever the post's state |
| `Models.Thread` | SNSApp/models.py:138-141 | Comment.get_by_post_id returns exactly the comments on the post, newest first |
| `Models.Pool.GetConn` | SNSApp/models.py:14 | taking a connection raises the checked-out count by one |
| `Models.Pool.Release` | SNSApp/models.py:25-26 | the `finally` release lowers the checked-out count by one |
| `Models.Database.constructor` | SNSApp/models.py:7 | the database starts with empty tables and AUTO_INCREMENT counters at 1 |
| `Models.Database.CreateUser` | SNSApp/models.py:13-26 | appends exactly one user with the given fields; returns its id, which is above every existing id; other tables unchanged; connection released |
| `Models.Database.FindByEmail` | SNSApp/models.py:29-41 | returns FindUserByEmail of the table and releases its connection |
| `Models.Database.GetNameById` | SNSApp/models.py:44-56 | returns UserName of the table and releases its connection |
| `Models.Database.GetAllPosts` | SNSApp/models.py:61-73 | returns the timeline of live posts and releases its connection |
| `Models.Database.CreatePost` | SNSApp/models.py:76-87 | appends exactly one live post stamped with the clock; other tables unchanged; connection released |
| `Models.Database.DeletePost` | SNSApp/models.py:90-101 | the posts table becomes SoftDelete of it; the ids stay valid; other tables unchanged; connection released |
| `Models.Database.FindPostById` | SNSApp/models.py:104-116 | returns the live post with that id or none, and releases its connection |
| `Models.Database.CreateComment` | SNSApp/models.py:121-132 | appends exactly one comment with no check on the post; other tables unchanged; connection released |
| `Models.Database.GetCommentsByPostId` | SNSApp/models.py:134-146 | returns the post's comments newest first, and releases its connection |
| `App.SignupCheck` | SNSApp/app.py:42-66 | the validation chain of signup_process; its own contract says every failure is one of the four signup messages, and its meaning is carried by `SignupCheckMeaning` |
| `App.SignupCheckMeaning` | SNSApp/app.py:42-66 | each failure message holds exactly when every earlier check passes and its own fails (blank field, password mismatch, malformed email, registered email); success exactly when all pass |
| `App.SignupAccepted` | SNSApp/app.py:42-66 | a signup that passes every check has a non-empty stripped name and email, equal non-empty passwords, an email in the pattern's language, and an email no user has |
| `App.SignupKeepsEmailsUnique` | SNSApp/app.py:62-70 | the duplicate check precedes the insert, so a successful signup keeps emails unique |
| `App.LoginCheck` | SNSApp/app.py:88-104 | the decision of login_process; its own contract says acceptance needs both fields present, and its meaning is carried by `LoginCheckMeaning` |
| `App.LoginCheckMeaning` | SNSApp/app.py:88-104 | empty fields give their own message; a refusal is one of two messages; acceptance yields the id of a user with that email whose digest matches; a crash exactly when the password is missing and the email is registered |
| `App.LoginAcceptsRegistered` | SNSApp/app.py:94-103 | with unique emails, a registered user who gives a password with the stored digest is let in as that user |
| `App.LoginHidesWhichCheckFailed` | SNSApp/app.py:94-100 | an unknown email and a wrong password give the same refusal |
| `App.SignupThenLogin` | SNSApp/app.py:63-102 | after a successful signup, logging in with the stored email and the same password yields the new user's id |
| `App.LoginWithUnstrippedEmailFails` | SNSApp/app.py:43-94 | when stored emails are stripped, logging in with an email that has surrounding whitespace never succeeds |
| `App.DeleteCheck` | SNSApp/app.py:150-158 | the checks of delete_post; its own contract says a permitted delete names a post with that id owned by the session user, and its meaning is carried by `DeleteCheckMeaning` |
| `App.DeleteCheckMeaning` | SNSApp/app.py:150-158 | not found exactly when no live post has the id; otherwise a live post exists, and delete is permitted exactly when the session user owns it |
| `App.RepeatDeleteIsNotFound` | SNSApp/app.py:150-152 | after a soft delete, deleting the same id again is not found, for every user |
| `App.Server.constructor` | SNSApp/app.py:16 | the application starts with nobody logged in, over any database whose ids are well formed and whose emails are unique and stripped, such as one filled by earlier signups |
| `App.Server.ValidateSignup` | SNSApp/app.py:42-66 | the verdict is SignupCheck's on the current users table, and the connection taken for the lookup is given back |
| `App.Server.SignupProcess` | SNSApp/app.py:41-74 | on a failed check: redirect to signup with the first failure's message, database and session unchanged; on success: exactly one user with stripped name and email and hash(password) is inserted, the session holds its id, emails stay unique and stripped |
| `App.Server.Register` | SNSApp/app.py:68-72 | inserts exactly one user with stripped name and email and hash(password), logs it in, and keeps emails unique and stripped; other tables unchanged |
| `App.Server.LoginProcess` | SNSApp/app.py:87-104 | the session is set to the user's id only on acceptance; refusals redirect to login with their message and leave the session as it was; the database is untouched |
| `App.Server.Logout` | SNSApp/app.py:109-111 | the session is cleared unconditionally and the client is sent to login |
| `App.Server.NamePostAuthors` | SNSApp/app.py:122-124 | the loop pairs every post, in order, with its author's name looked up by id |
| `App.Server.NameCommentAuthors` | SNSApp/app.py:175-177 | the loop pairs every comment, in order, with its author's name looked up by id |
| `App.Server.PostsView` | SNSApp/app.py:116-126 | with no session: redirect to login; otherwise the page gets the timeline of live posts with their authors' names |
| `App.Server.CreatePost` | SNSApp/app.py:131-141 | with no session: redirect to login, nothing changes; whitespace-only content: error message, nothing changes; otherwise exactly one post with the stripped content, owned by the session user |
| `App.Server.DeletePost` | SNSApp/app.py:145-160 | with no session: redirect to login; absent or deleted post: 404; non-owner: error message with the database unchanged; owner: the post is soft-deleted and nothing else changes |
| `App.Server.PostDetailView` | SNSApp/app.py:164-179 | with no session: redirect to login; absent or deleted post: 404; otherwise the live post with its author's name and all its comments newest first with theirs |
| `App.Server.CreateComment` | SNSApp/app.py:183-193 | with no session: redirect to login; whitespace-only content: error message, nothing changes; otherwise exactly one comment with the stripped content, even on a missing or deleted post |
| `App.SignupLogoutLogin` | SNSApp/app.py:41-111 | a valid signup, then logout, then login with the stored email and password, ends on the posts list logged in as the new user |

## Left out

- Flask itself is not modelled: routing, `url_for`, `render_template`, the flash queue and its 'error'/'success' categories, and the 400/404/500 error pages. Handlers return an `Outcome`, and a flash is a `Message` tag.
- The routes `index`, `signup_view` and `login_view` are left out. They only redirect on the session and are not part of the modelled core.
- CSRF protection, the secret key, the 30-day permanent session and `app.run` are left out. The session is modelled as an optional user id.
- SHA-256 is the uninterpreted function `Server.hash`. The proofs use only that it is a deterministic function.
- The `strftime` formatting of `created_at` is left out, because it is presentation only. Views carry the timestamp as a number.
- Database failures (`pymysql.Error`, logging, `abort(500)`) are not modelled. Every statement succeeds.
- The connection pool library is reduced to a count of checked-out connections.
- Concurrent requests, and the storage layer's handling of a duplicate-signup race, are not modelled. The table schema and its constraints are not part of this model.
- Email comparison in `WHERE email=%s` is exact string equality. The MySQL collation is not part of this model.
- `created_at` and `NOW()` are the `now` argument supplied by the caller. The schema's default for `created_at` is not part of this model.
- `ORDER BY created_at DESC` leaves the order of equal timestamps open. The model picks one order: the contracts of the listing methods name the model's sort, so they fix that order among equal timestamps, but no lemma depends on it; the properties proved are the multiset of rows and the non-increasing order.
- Python's regular-expression engine is not modelled. EMAIL_PATTERN is restated as the language it denotes.
- Missing signup, post and comment form fields are the empty string, as the `''` defaults of `request.form.get` make them.
