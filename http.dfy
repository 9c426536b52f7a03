/** What a handler or the guard writes back: a status code and a JSON body. */
module Http {
  import opened Models

  datatype Body =
    | /** gin.H{"error": message} */ ErrorJson(message: string)
    | /** gin.H{"error": err.Error()} for a request body that failed its binding tags */
      BindErrorJson(errors: seq<FieldError>)
    | PostsJson(posts: seq<Post>)
    | PostJson(post: Post)
    | /** a nil body */ NullJson

  datatype Response = Response(status: nat, body: Body)

  const StatusOK: nat := 200
  const StatusCreated: nat := 201
  const StatusNoContent: nat := 204
  const StatusBadRequest: nat := 400
  const StatusUnauthorized: nat := 401
  const StatusNotFound: nat := 404
  const StatusInternalServerError: nat := 500
}
