/** How the pieces compose: the guard in front of a handler (internal/routes/routes.go keeps that
    wiring commented out), and a handler in front of the post service. */
module Pipeline {
  import opened Wrappers
  import opened Errors
  import opened Models
  import opened Http
  import opened Controllers
  import opened Middleware
  import opened Services

  /** The guard stores the user under "current_user" but the handlers read "user": a request the
      guard let through, on a context that had no "user", never reaches Create, Update or Delete
      of the service. */
  lemma GuardedRequestNeverReachesService(
    keys: map<string, User>, header: string, validate: string -> Result<User, Error>,
    id: Option<nat>, decoded: Result<CreatePostRequest, string>, bound: Result<UpdatePostRequest, string>,
    post: Result<Post, Error>, deleted: Option<Error>)
    requires UserKey !in keys
    requires GuardedKeys(keys, header, validate).Some?
    ensures var k := GuardedKeys(keys, header, validate).value;
      && Create(decoded, k, post).call.None?
      && Update(id, bound, k, post).call.None?
      && Delete(id, k, deleted).call.None?
  {
    var k := GuardedKeys(keys, header, validate).value;
    assert UserKey != CurrentUserKey;
    assert UserKey !in k;
  }

  /** A well-formed create by the author named in the body, when no such user is stored: the
      service answers with its plain error, and the handler turns it into a 500, with nothing
      stored. */
  lemma MissingAuthorIsAServerError(posts: map<nat, Post>, users: map<nat, User>, req: CreatePostRequest, u: User)
    requires ValidateCreatePost(req) == [] && u.id == req.authorId && req.authorId !in users
    ensures var o := Create(Ok(req), map[UserKey := u], CreatePost(posts, users, Post(0, req.title, req.content, req.authorId)).0);
      && o.call.Some?
      && o.response == Response(StatusInternalServerError, ErrorJson("no author with ID " + Format.Decimal(req.authorId)))
    ensures CreatePost(posts, users, Post(0, req.title, req.content, req.authorId)).1 == posts
  {
  }

  /** Delete authorizes by the post id, not by the author: the user whose id happens to equal the
      post id deletes someone else's post, and the post's author is refused. */
  lemma DeleteIgnoresAuthor(posts: map<nat, Post>, id: nat, u: User, author: User)
    requires id in posts && posts[id].authorId == author.id && author.id != id && u.id == id
    ensures var o := Delete(Some(id), map[UserKey := u], DeletePost(posts, id).0);
      o.call == Some(DeleteCall(id)) && o.response == Response(StatusNoContent, NullJson)
    ensures DeletePost(posts, id).1 == posts - {id}
    ensures Delete(Some(id), map[UserKey := author], DeletePost(posts, id).0) == Reject(Refused)
  {
  }

  /** Deleting an absent post through the handler is a 404 carrying the repository's message. */
  lemma DeleteOfAbsentPostIsNotFound(posts: map<nat, Post>, id: nat, u: User)
    requires id !in posts && u.id == id
    ensures Delete(Some(id), map[UserKey := u], DeletePost(posts, id).0)
      == Outcome(Some(DeleteCall(id)), Response(StatusNotFound, ErrorJson("post not found")))
  {
  }

  /** GET /posts?topic_id=t answers 200 with exactly the posts tied to topic t. */
  lemma TopicQueryListsTaggedPosts(posts: map<nat, Post>, postTopics: set<(nat, nat)>, param: string, t: nat)
    requires param != ""
    ensures var o := GetAll(param, Some(t), Ok(Tagged(Rows(posts), postTopics, t)));
      && o.call == Some(GetByTopicCall(t)) && o.response.status == StatusOK
      && forall p :: p in o.response.body.posts <==> p in posts.Values && (p.id, t) in postTopics
  {
  }
}
