# A verified model of the web-forum post API core

This project models, in Dafny, the decision-making core of a small Gin/GORM forum API
(web-forum, Go): the bearer-token guard, the post handlers, the post service, the services'
error kinds, the request-binding rules and table relations of the models, and the post
repository. Everything HTTP-, JSON- or SQL-shaped is reduced to values: a handler is a function
from what it reads (query parameter, parsed id, decoded body, context keys, the service's reply)
to the service call it makes and the response it writes; tables are maps keyed by primary key;
the guard writes to a `Context` object.

Modules, one per source file or component:

- `Format`: the `%d` verb of Go's fmt, with its inverse.
- `Errors`: `ValidationError`, `AlreadyInUseError`, the not-shown `NotFoundError` and plain
  errors as one closed datatype, with each kind's `Error()` text.
- `Models`: the records, the `binding` tags as a small validator (`required`, `min=N`, first
  failing tag per field), the unique indexes, the `post_topics` join table, `OnDelete:SET NULL`,
  and how GORM reads and writes a table (all rows, which the model lists by ascending id,
  insert, lookup, delete with rows affected).
- `Repos`: `repos/posts.go` as a class over a posts table and a users table.
- `Services`: `internal/services/posts.go` as a class over the post, user and join tables.
- `Http`, `Controllers`: responses and the five `PostController` handlers.
- `Middleware`: `strings.Split` on a space, the header checks, the request context and `CheckAuth`.
- `Pipeline`: lemmas composing guard, handler and service.

Behaviour kept as the code has it, not as it may have been meant:

- `Update` and `Delete` compare the user's id with the post id in the path, not with the post's
  author (`Pipeline.DeleteIgnoresAuthor`).
- The guard stores the user under `"current_user"`; the handlers read `"user"`, so a request
  that passed the guard still gets 401 from `Create`, `Update` and `Delete`
  (`Pipeline.GuardedRequestNeverReachesService`).
- A missing author is a plain formatted error, so `Create` answers it with 500, not 400
  (`Pipeline.MissingAuthorIsAServerError`).
- The repository's `Delete` removes a row of the users table and leaves the posts table alone
  (`Repos.PostRepo.Delete`).
- `"Bearer "` passes the format check and hands the empty token to `ValidateToken`; `"Bearer  x"`
  (two spaces) is refused (`Middleware.InspectExamples`).

Parameters standing for what the model does not contain: `CheckAuth` takes `validate`
(AuthService.ValidateToken) and `render` (errs.HTTPErrorResponse) as functions; each repository
method takes `fault`, the database driver's failure, if any; handlers take the parsed id as
`Option<nat>` and the decoded body as a `Result`.

The service's repositories (internal/repos) are not part of this model. The service is modelled
over its tables directly: lookups fail with GORM's `record not found`, and a delete that removes
no row fails with the "post not found" message that the repository `Delete` in `repos/posts.go`
builds. GORM's own `Delete` never reports a missing row as an error. `repos/posts.go` is modelled
on its own, and it deletes from the users table, so it is not claimed to be the service's
backing store.

## Model

| member | source | states |
|---|---|---|
| `Format.Decimal` | internal/services/posts.go:33 | `%d` of an id is a non-empty digit string with no leading zero |
| `Format.DecimalRoundTrip` | internal/services/posts.go:33 | reading the printed digits back gives the id |
| `Format.DecimalInjective` | internal/services/posts.go:33 | distinct ids print differently |
| `Errors.ErrorText` | internal/services/errors.go:9-23 | `Error()`: a validation error prints its message and a plain or not-found error its text, verbatim; an in-use error prints the field followed by " already in use" |
| `Errors.NewValidationError` | internal/services/errors.go:5-15 | the constructor stores the message and `Error()` returns it verbatim |
| `Errors.NewAlreadyInUseError` | internal/services/errors.go:17-27 | the constructor stores the field; `Error()` is the field followed by " already in use"; the kind is neither validation nor not-found |
| `Errors.FieldInUse` | internal/services/errors.go:21-23 | a message that yields a field is that field plus the fixed suffix |
| `Errors.InUseTextRoundTrip` | internal/services/errors.go:21-23 | the field is recovered from an in-use message |
| `Errors.InUseTextInjective` | internal/services/errors.go:21-23 | in-use messages are injective in the field |
| `Errors.NoAuthor` | internal/services/posts.go:33 | the missing-author error is a plain error reading "no author with ID " and the id |
| `Errors.NoAuthorInjective` | internal/services/posts.go:33 | different missing ids give different messages |
| `Models.FirstFailure` | internal/models/models.go:26 | a field passes iff every tag holds; otherwise the reported tag is the first of its tags that fails, every earlier one holding |
| `Models.Validate` | internal/models/models.go:23-28 | a struct binds iff no field reports a failure; the report holds exactly the fields' own first failures, at most one per field |
| `Models.RequiredMinFailure` | internal/models/models.go:26 | `required,min=N`: an empty string fails `required`, a shorter one `min` |
| `Models.ValidateCreatePost` | internal/models/models.go:24-28 | accepted iff title non-empty, content at least 10 characters, author id non-zero |
| `Models.CreatePostFailures` | internal/models/models.go:25-27 | which tag each bad field fails: empty content `required`, short content `min`, empty title and zero author `required` |
| `Models.ValidateCreateComment` | internal/models/models.go:41-45 | accepted iff content non-empty and author id non-zero; PostID is never reported |
| `Models.ValidateUser` | internal/models/models.go:9 | a user binds iff the username is non-empty |
| `Models.ValidateTopic` | internal/models/models.go:49 | a topic binds iff the name is non-empty |
| `Models.InsertUnique` | internal/models/models.go:9 | an insert succeeds iff the id and the indexed value are both free; it then adds exactly that row, else reports a duplicate |
| `Models.InsertKeepsUnique` | internal/models/models.go:9 | successful inserts keep usernames (topic names) unique |
| `Models.SecondTopicWithSameNameFails` | internal/models/models.go:49 | creating topic "golang" twice: the second insert fails |
| `Models.JoinIsSymmetric` | internal/models/models.go:20 | a post lists a topic iff the topic lists the post, both read from `post_topics` |
| `Models.DeleteUser` | internal/models/models.go:19 | deleting a user keeps every post and comment; those by that user get a NULL author |
| `Models.DeleteUserKeepsAuthorsValid` | internal/models/models.go:37 | after SET NULL every author reference is NULL or an existing user |
| `Models.SortedIds` | repos/posts.go:18-25 | the keys in strictly ascending order, each exactly once |
| `Models.Rows` | repos/posts.go:18-25 | the rows of a table: as many as stored, exactly the stored values |
| `Models.RowsOfKeyedAreSorted` | repos/posts.go:18-25 | the rows come in ascending id order |
| `Models.NextId` | repos/posts.go:36-41 | an id assigned on insert is non-zero and above every stored id |
| `Models.Insert` | repos/posts.go:36-41 | a taken non-zero id is refused with nothing changed; otherwise the returned post is the given one with its id filled in, now stored |
| `Models.Lookup` | repos/posts.go:27-34 | succeeds iff the id is stored, with that post; otherwise `record not found` |
| `Models.DeleteRow` | repos/posts.go:43-51 | succeeds iff the id is stored, removing exactly that row; otherwise the given error and no change |
| `Models.DeleteTwiceFails` | repos/posts.go:43-51 | after a successful delete, the same delete fails |
| `Repos.DeleteUserRow` | repos/posts.go:43-51 | the driver's error is returned as is with no change; otherwise success iff the user row exists, and "post not found" when none was affected |
| `Repos.SecondDeleteFails` | repos/posts.go:44-51 | a second `Delete(id)` after a successful one reports "post not found" |
| `Repos.PostRepo.GetAll` | repos/posts.go:18-25 | the driver's error, or every stored post once, in id order |
| `Repos.PostRepo.GetByID` | repos/posts.go:27-34 | the driver's error, or the post under that id, or `record not found` iff absent |
| `Repos.PostRepo.Create` | repos/posts.go:36-41 | on success the returned post is the given one (id filled in) and is stored; nothing stored on error |
| `Repos.PostRepo.Delete` | repos/posts.go:43-51 | removes from the users table as `DeleteUserRow` says; the posts table is unchanged |
| `Repos.DeleteTwice` | repos/posts.go:43-51 | two deletes in a row: if the first succeeds the second fails; the users table loses that id either way; posts unchanged |
| `Services.Tagged` | internal/services/posts.go:26-28 | exactly the given posts that `post_topics` ties to the topic |
| `Services.TaggedKeepsOrder` | internal/services/posts.go:26-28 | the topic's posts stay in id order |
| `Services.CreatePost` | internal/services/posts.go:30-36 | an unknown author gives the plain "no author" error, not a validation error, with nothing inserted; otherwise exactly the insert's result |
| `Services.DeletePost` | internal/services/posts.go:38-40 | fails with "post not found" iff the post is absent; otherwise removes exactly that post |
| `Services.CreateThenGetThenDelete` | internal/services/posts.go:22-40 | a created post is read back unchanged and a delete of it restores the table |
| `Services.PostService.GetAll` | internal/services/posts.go:18-20 | every stored post once, in id order; nothing changes |
| `Services.PostService.GetByID` | internal/services/posts.go:22-24 | the stored post iff present, else the repository's not-found error |
| `Services.PostService.GetByTopic` | internal/services/posts.go:26-28 | exactly the stored posts tied to the topic, in id order |
| `Services.PostService.Create` | internal/services/posts.go:30-36 | result and new posts table are those of `CreatePost`: author checked before any insertion |
| `Services.PostService.Delete` | internal/services/posts.go:38-40 | result and new posts table are those of `DeletePost` |
| `Controllers.GetAll` | internal/controllers/posts.go:22-45 | a non-integer `topic_id` is a 400 with no call; an integer one calls `GetByTopic`, none calls `GetAll`; 200 iff the reply succeeded, 500 iff it failed |
| `Controllers.GetByID` | internal/controllers/posts.go:48-61 | a bad id is a 400 with no call; otherwise 404 for any error, 200 with the post on success |
| `Controllers.CreateFailure` | internal/controllers/posts.go:95-105 | a `ValidationError` is a 400, any other error a 500, with the error's text |
| `Controllers.Create` | internal/controllers/posts.go:64-108 | binding failures are 400s; 401 without a call iff no "user" or its id is not the author id; the call carries title, content and author id; 201 iff the service succeeded |
| `Controllers.UpdateFailure` | internal/controllers/posts.go:143-154 | `NotFoundError` gives 404, `ValidationError` 400, `AlreadyInUseError` and plain errors 500 |
| `Controllers.Update` | internal/controllers/posts.go:111-157 | bad id or body is a 400; 401 without a call iff no "user" or its id differs from the POST id; 200 iff the service succeeded |
| `Controllers.Delete` | internal/controllers/posts.go:160-189 | a bad id is a 400; 401 without a call iff no "user" or its id differs from the post id; any error 404, success 204 |
| `Controllers.EarlyExitsAreClientErrors` | internal/controllers/posts.go:22-189 | whenever a handler makes no service call it answers 400 or 401 |
| `Controllers.InUseIsAServerError` | internal/controllers/posts.go:97-98 | an `AlreadyInUseError` is never classified as a validation error: 500 in Create and Update |
| `Controllers.PatchOfAnotherIdIsRefused` | internal/controllers/posts.go:134-139 | user 1 patching post 2 is refused with no call |
| `Middleware.Split` | internal/middleware/check_auth.go:31 | `strings.Split` on " " gives at least one piece, none containing a space |
| `Middleware.JoinSplit` | internal/middleware/check_auth.go:31 | joining the pieces with single spaces gives the header back |
| `Middleware.SplitAfterWord` | internal/middleware/check_auth.go:31 | a space after a space-free word ends the first piece |
| `Middleware.InspectSplit` | internal/middleware/check_auth.go:31-32 | two pieces with first "Bearer" iff the header is "Bearer " then a space-free token, which is the second piece |
| `Middleware.Inspect` | internal/middleware/check_auth.go:22-38 | empty header iff missing; token handed on iff the header is "Bearer " then a space-free token, and the token is exactly the rest |
| `Middleware.InspectExamples` | internal/middleware/check_auth.go:31-32 | "Bearer " passes with the empty token; double space, lower-case "bearer", no token and three pieces fail |
| `Middleware.Context.AbortWithStatusJSON` | internal/middleware/check_auth.go:26 | sets the response and aborts |
| `Middleware.Context.AbortWith` | internal/middleware/check_auth.go:40-41 | writes the response rendered for the error and aborts; nothing else changes |
| `Middleware.Context.Set` | internal/middleware/check_auth.go:46 | adds exactly one key |
| `Middleware.Context.Next` | internal/middleware/check_auth.go:49 | passes control on once |
| `Middleware.CheckAuth` | internal/middleware/check_auth.go:21-50 | missing header: 401 "missing authorization header"; bad format: 401 "invalid token"; neither calls `ValidateToken` nor sets a key; otherwise only the second piece is validated; on error the rendered error and abort; on success exactly `current_user` set and control passed on once; the new keys are those `GuardedKeys` gives |
| `Middleware.GuardedKeys` | internal/middleware/check_auth.go:46 | the keys change iff the token validates, and only by `current_user` |
| `Pipeline.GuardedRequestNeverReachesService` | internal/controllers/posts.go:73-85 | after the guard, a context without "user" reaches none of the mutating service calls |
| `Pipeline.MissingAuthorIsAServerError` | internal/services/posts.go:32-34 | a valid create for an unknown author is a 500 with "no author with ID n", and nothing is stored |
| `Pipeline.DeleteIgnoresAuthor` | internal/controllers/posts.go:176-188 | the user whose id is the post id deletes someone else's post; the true author is refused |
| `Pipeline.DeleteOfAbsentPostIsNotFound` | internal/controllers/posts.go:183-186 | deleting an absent post is a 404 reading "post not found" |
| `Pipeline.TopicQueryListsTaggedPosts` | internal/controllers/posts.go:28-44 | `?topic_id=t` answers 200 with exactly the posts tied to t |

## Left out

- HTTP transport: Gin routing (internal/routes/routes.go, where `CheckAuth` is attached to no route
  and `UpdateTags` names a handler that is not part of this model), JSON decoding and rendering,
  `IndentedJSON` versus `JSON`. Responses are values; decoded bodies are inputs.
- The text of validator binding errors: a failed binding is the list of (field, tag) failures,
  not the formatted message.
- `min=10` counts characters of a `seq<char>`; the validator counts Unicode code points.
- `strconv.Atoi` and the wrap of `uint(...)` on negative numbers: parsed ids are an abstract
  `Option<nat>`.
- `AuthService.ValidateToken` and `errs.HTTPErrorResponse` are not part of this model: they are
  function parameters of `CheckAuth`.
- `PostService.Update`, `NotFoundError` and `UpdatePostRequest` are not part of this model: the
  `Update` handler takes the service's reply and the bound body as inputs, and `NotFoundError`
  carries its text as given.
- The type assertion `user.(*models.User)`: context values are modelled as users only, so it
  cannot fail.
- Timestamps (`CreatedAt`, `UpdatedAt`), and `Post.Author` and `Post.Topics` as loaded fields.
- Auto-increment: an insert with id 0 gets one above the largest stored id; the database's
  sequence also never reuses the id of a deleted row.
- SQL constraint enforcement beyond primary keys and unique indexes: foreign keys are not
  checked on insert. The `OnDelete:SET NULL` rule is modelled in `Models.DeleteUser`, not in
  `Repos.PostRepo.Delete`, whose `models` package is a different one from internal/models.
- `Repos.PostRepo.GetByID`: takes the id as a number; GORM's treatment of a string condition is
  not modelled.
- Database failures other than a duplicate key are the `fault` parameter; the service's model
  has no such parameter, so its reads never fail.
- Comment, topic, user and auth services and controllers, and ownership by author: none are
  part of this model.
- Concurrency between requests.
- `Models.SortedIds`, `Models.Rows`, `Models.RowsOfKeyedAreSorted`, `Repos.PostRepo.GetAll`,
  `Services.PostService.GetAll`, `Services.PostService.GetByTopic`, `Services.TaggedKeepsOrder`:
  Find's row order is unspecified, because it adds no ORDER BY. The model returns rows by
  ascending id, so the id-order clauses describe the model's choice, not a promise of the source.
- `Repos.PostRepo.Create`: GORM fills the id into the caller's struct and the method returns that
  same pointer. The model returns a new value with the id filled in, so the aliasing between
  argument and result is not captured. Nothing in the modelled core relies on it.
- `Services.DeletePost`: the service's repository is not part of this model. A missing post is
  reported with the "post not found" message of the repository `Delete` in `repos/posts.go`.
