/** internal/controllers/posts.go: the PostController handlers as decision functions. Each takes
    what the handler reads from the request (the raw query parameter, the outcome of parsing a
    path id, the decoded body, the context's keys) and the reply of the one service call it may
    make, and returns the call it made, if any, and the response it wrote. Parsing with
    strconv.Atoi followed by uint(...) is abstract: `Some(n)` when it yields n, `None` when it
    fails. */
module Controllers {
  import opened Wrappers
  import opened Errors
  import opened Models
  import opened Http

  /** A call into PostService, with its arguments. */
  datatype Call =
    | GetAllCall
    | GetByTopicCall(topicId: nat)
    | GetByIdCall(id: nat)
    | CreateCall(post: Post)
    | UpdateCall(id: nat, title: string, content: string)
    | DeleteCall(id: nat)

  datatype Outcome = Outcome(call: Option<Call>, response: Response)

  /** The decoded body of PATCH /posts/:id (models.UpdatePostRequest; its tags are not part of
      this model, so binding is the abstract `bound` input). */
  datatype UpdatePostRequest = UpdatePostRequest(title: string, content: string)

  /** The context key the handlers read the authenticated user from. */
  const UserKey: string := "user"

  const Refused: Response := Response(StatusUnauthorized, ErrorJson("unauthorized"))

  const BadPostId: Response := Response(StatusBadRequest, ErrorJson("invalid post ID"))

  /** An early exit: nothing was asked of the service. */
  function Reject(r: Response): Outcome
  {
    Outcome(None, r)
  }

  /** GET /posts and GET /posts?topic_id=n. */
  function GetAll(topicParam: string, topicId: Option<nat>, reply: Result<seq<Post>, Error>): (o: Outcome)
    ensures o.call.None? <==> topicParam != "" && topicId.None?
    ensures o.call.None? ==> o.response == Response(StatusBadRequest, ErrorJson("invalid topic_id"))
    ensures topicParam != "" && topicId.Some? ==> o.call == Some(GetByTopicCall(topicId.value))
    ensures topicParam == "" ==> o.call == Some(GetAllCall)
    ensures o.response.status == StatusOK <==> o.call.Some? && reply.Ok?
    ensures o.response.status == StatusInternalServerError <==> o.call.Some? && reply.Err?
    ensures o.response.status == StatusOK ==> o.response.body == PostsJson(reply.value)
  {
    var call :=
      if topicParam != "" then
        if topicId.None? then None else Some(GetByTopicCall(topicId.value))
      else Some(GetAllCall);
    if call.None? then Reject(Response(StatusBadRequest, ErrorJson("invalid topic_id")))
    else if reply.Err? then Outcome(call, Response(StatusInternalServerError, ErrorJson(ErrorText(reply.error))))
    else Outcome(call, Response(StatusOK, PostsJson(reply.value)))
  }

  /** GET /posts/:id: a service error of any kind is a 404. */
  function GetByID(id: Option<nat>, reply: Result<Post, Error>): (o: Outcome)
    ensures id.None? ==> o == Reject(BadPostId)
    ensures id.Some? ==> o.call == Some(GetByIdCall(id.value))
    ensures o.response.status == StatusNotFound <==> id.Some? && reply.Err?
    ensures o.response.status == StatusOK <==> id.Some? && reply.Ok?
    ensures o.response.status == StatusOK ==> o.response.body == PostJson(reply.value)
  {
    match id
    case None => Reject(BadPostId)
    case Some(n) =>
      var call := Some(GetByIdCall(n));
      if reply.Err? then Outcome(call, Response(StatusNotFound, ErrorJson(ErrorText(reply.error))))
      else Outcome(call, Response(StatusOK, PostJson(reply.value)))
  }

  /** Whether the context holds a user under "user" whose id is the given one. */
  predicate ActsAs(keys: map<string, User>, id: nat)
  {
    UserKey in keys && keys[UserKey].id == id
  }

  /** How Create reports the service's error: errors.As finds a ValidationError, or not. */
  function CreateFailure(e: Error): (r: Response)
    ensures r.status == (if e.ValidationError? then StatusBadRequest else StatusInternalServerError)
    ensures r.body == ErrorJson(ErrorText(e))
  {
    if e.ValidationError? then Response(StatusBadRequest, ErrorJson(ErrorText(e)))
    else Response(StatusInternalServerError, ErrorJson(ErrorText(e)))
  }

  /** POST /posts: bind and validate the body, require a "user" whose id is the author id, then
      create a post carrying only the title, content and author id. */
  function Create(decoded: Result<CreatePostRequest, string>, keys: map<string, User>, reply: Result<Post, Error>): (o: Outcome)
    ensures decoded.Err? ==> o == Reject(Response(StatusBadRequest, ErrorJson(decoded.error)))
    ensures decoded.Ok? && ValidateCreatePost(decoded.value) != [] ==>
      o == Reject(Response(StatusBadRequest, BindErrorJson(ValidateCreatePost(decoded.value))))
    ensures o.call.Some? <==> decoded.Ok? && ValidateCreatePost(decoded.value) == [] && ActsAs(keys, decoded.value.authorId)
    ensures o.response == Refused <==> decoded.Ok? && ValidateCreatePost(decoded.value) == [] && !ActsAs(keys, decoded.value.authorId)
    ensures o.call.Some? ==> o.call.value == CreateCall(Post(0, decoded.value.title, decoded.value.content, decoded.value.authorId))
    ensures o.call.Some? ==> (o.response.status == StatusCreated <==> reply.Ok?)
    ensures o.call.Some? && reply.Ok? ==> o.response.body == PostJson(reply.value)
    ensures o.call.Some? && reply.Err? ==> o.response == CreateFailure(reply.error)
  {
    match decoded
    case Err(text) => Reject(Response(StatusBadRequest, ErrorJson(text)))
    case Ok(req) =>
      var errs := ValidateCreatePost(req);
      if errs != [] then Reject(Response(StatusBadRequest, BindErrorJson(errs)))
      else if UserKey !in keys then Reject(Refused)
      else if keys[UserKey].id != req.authorId then Reject(Refused)
      else
        var call := Some(CreateCall(Post(0, req.title, req.content, req.authorId)));
        match reply
        case Err(e) => Outcome(call, CreateFailure(e))
        case Ok(post) => Outcome(call, Response(StatusCreated, PostJson(post)))
  }

  /** How Update reports the service's error: the type switch on its kind. */
  function UpdateFailure(e: Error): (r: Response)
    ensures r.status == StatusNotFound <==> e.NotFoundError?
    ensures r.status == StatusBadRequest <==> e.ValidationError?
    ensures r.status == StatusInternalServerError <==> e.AlreadyInUseError? || e.PlainError?
    ensures r.body == ErrorJson(ErrorText(e))
  {
    match e
    case NotFoundError(_) => Response(StatusNotFound, ErrorJson(ErrorText(e)))
    case ValidationError(_) => Response(StatusBadRequest, ErrorJson(ErrorText(e)))
    case _ => Response(StatusInternalServerError, ErrorJson(ErrorText(e)))
  }

  /** PATCH /posts/:id: parse the id, bind the body, require a "user" whose id equals the POST
      id, then update title and content. */
  function Update(id: Option<nat>, bound: Result<UpdatePostRequest, string>, keys: map<string, User>, reply: Result<Post, Error>): (o: Outcome)
    ensures id.None? ==> o == Reject(BadPostId)
    ensures id.Some? && bound.Err? ==> o == Reject(Response(StatusBadRequest, ErrorJson(bound.error)))
    ensures o.call.Some? <==> id.Some? && bound.Ok? && ActsAs(keys, id.value)
    ensures o.response == Refused <==> id.Some? && bound.Ok? && !ActsAs(keys, id.value)
    ensures o.call.Some? ==> o.call.value == UpdateCall(id.value, bound.value.title, bound.value.content)
    ensures o.call.Some? ==> (o.response.status == StatusOK <==> reply.Ok?)
    ensures o.call.Some? && reply.Ok? ==> o.response.body == PostJson(reply.value)
    ensures o.call.Some? && reply.Err? ==> o.response == UpdateFailure(reply.error)
  {
    match id
    case None => Reject(BadPostId)
    case Some(n) =>
      match bound
      case Err(text) => Reject(Response(StatusBadRequest, ErrorJson(text)))
      case Ok(req) =>
        if UserKey !in keys then Reject(Refused)
        else if keys[UserKey].id != n then Reject(Refused)
        else
          var call := Some(UpdateCall(n, req.title, req.content));
          match reply
          case Err(e) => Outcome(call, UpdateFailure(e))
          case Ok(post) => Outcome(call, Response(StatusOK, PostJson(post)))
  }

  /** DELETE /posts/:id: parse the id, require a "user" whose id equals the post id, then
      delete; any service error is a 404. */
  function Delete(id: Option<nat>, keys: map<string, User>, reply: Option<Error>): (o: Outcome)
    ensures id.None? ==> o == Reject(BadPostId)
    ensures o.call.Some? <==> id.Some? && ActsAs(keys, id.value)
    ensures o.response == Refused <==> id.Some? && !ActsAs(keys, id.value)
    ensures o.call.Some? ==> o.call.value == DeleteCall(id.value)
    ensures o.call.Some? ==> o.response == (if reply.Some? then Response(StatusNotFound, ErrorJson(ErrorText(reply.value)))
                                            else Response(StatusNoContent, NullJson))
  {
    match id
    case None => Reject(BadPostId)
    case Some(n) =>
      if UserKey !in keys then Reject(Refused)
      else if keys[UserKey].id != n then Reject(Refused)
      else
        var call := Some(DeleteCall(n));
        match reply
        case Some(e) => Outcome(call, Response(StatusNotFound, ErrorJson(ErrorText(e))))
        case None => Outcome(call, Response(StatusNoContent, NullJson))
  }

  /** Every early exit of every handler is a 400 or a 401: the service is not asked, and nothing
      is reported as a success. */
  lemma EarlyExitsAreClientErrors(topicParam: string, topicId: Option<nat>, id: Option<nat>,
                                  decoded: Result<CreatePostRequest, string>, bound: Result<UpdatePostRequest, string>,
                                  keys: map<string, User>, posts: Result<seq<Post>, Error>, post: Result<Post, Error>,
                                  deleted: Option<Error>)
    ensures var o := GetAll(topicParam, topicId, posts); o.call.None? ==> o.response.status == StatusBadRequest
    ensures var o := GetByID(id, post); o.call.None? ==> o.response.status == StatusBadRequest
    ensures var o := Create(decoded, keys, post); o.call.None? ==> o.response.status in {StatusBadRequest, StatusUnauthorized}
    ensures var o := Update(id, bound, keys, post); o.call.None? ==> o.response.status in {StatusBadRequest, StatusUnauthorized}
    ensures var o := Delete(id, keys, deleted); o.call.None? ==> o.response.status in {StatusBadRequest, StatusUnauthorized}
  {
  }

  /** An AlreadyInUseError is never taken for a ValidationError: both Create and Update answer it
      with 500. */
  lemma InUseIsAServerError(field: string)
    ensures CreateFailure(NewAlreadyInUseError(field)).status == StatusInternalServerError
    ensures UpdateFailure(NewAlreadyInUseError(field)).status == StatusInternalServerError
  {
  }

  /** Authenticated as user 1, PATCH /posts/2 is refused before the service is asked. */
  lemma PatchOfAnotherIdIsRefused(u: User, bound: Result<UpdatePostRequest, string>, reply: Result<Post, Error>)
    requires u.id == 1 && bound.Ok?
    ensures Update(Some(2), bound, map[UserKey := u], reply) == Reject(Refused)
  {
  }
}
