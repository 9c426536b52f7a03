/** internal/middleware/check_auth.go: the bearer-token guard. The header checks are functions on
    the header string; the request context the guard writes to is a class. AuthService.ValidateToken
    and errs.HTTPErrorResponse are not part of this model and are parameters of CheckAuth. */
module Middleware {
  import opened Wrappers
  import opened Errors
  import opened Models
  import opened Http

  /** The index of the first space, or |s| when there is none. */
  function IndexOfSpace(s: string): (i: nat)
    ensures i <= |s|
    ensures i < |s| ==> s[i] == ' '
    ensures forall j :: 0 <= j < i ==> s[j] != ' '
  {
    if s == [] || s[0] == ' ' then 0 else 1 + IndexOfSpace(s[1..])
  }

  /** strings.Split(s, " "): the pieces between single spaces, one more than there are spaces. */
  function Split(s: string): (parts: seq<string>)
    ensures |parts| >= 1
    ensures forall i :: 0 <= i < |parts| ==> ' ' !in parts[i]
    decreases |s|
  {
    var i := IndexOfSpace(s);
    if i == |s| then [s] else [s[..i]] + Split(s[i + 1..])
  }

  /** strings.Join(parts, " "), the inverse of Split. */
  function Join(parts: seq<string>): string
    requires |parts| >= 1
  {
    if |parts| == 1 then parts[0] else parts[0] + " " + Join(parts[1..])
  }

  /** Split loses nothing: joining the pieces with single spaces gives the string back. */
  lemma {:induction false} JoinSplit(s: string)
    ensures Join(Split(s)) == s
    decreases |s|
  {
    var i := IndexOfSpace(s);
    if i < |s| {
      var tail := s[i + 1..];
      JoinSplit(tail);
      var parts := Split(s);
      assert parts == [s[..i]] + Split(tail);
      assert parts[0] == s[..i] && parts[1..] == Split(tail);
      assert Join(parts) == s[..i] + " " + Join(Split(tail));
      assert s == s[..i] + " " + tail;
    }
  }

  /** A string with no space is one piece. */
  lemma SplitOfWord(s: string)
    requires ' ' !in s
    ensures Split(s) == [s]
  {
  }

  /** A space after a space-free word starts the second piece. */
  lemma SplitAfterWord(w: string, rest: string)
    requires ' ' !in w
    ensures Split(w + " " + rest) == [w] + Split(rest)
  {
    var s := w + " " + rest;
    var i := IndexOfSpace(s);
    assert s[|w|] == ' ';
    assert i == |w|;
    assert s[..i] == w;
    assert s[i + 1..] == rest;
  }

  /** What the guard decides from the Authorization header alone. */
  datatype Inspection = MissingHeader | InvalidFormat | Token(token: string)

  const BearerPrefix: string := "Bearer "

  /** The header checks of CheckAuth: empty; then Split on " " must give exactly two pieces, the
      first exactly "Bearer". This holds iff the header is "Bearer " followed by a space-free
      token, possibly empty, and the token is then the second piece. */
  function Inspect(header: string): (r: Inspection)
    ensures r.MissingHeader? <==> header == ""
    ensures r.Token? <==> |header| >= |BearerPrefix| && header[..|BearerPrefix|] == BearerPrefix
                          && ' ' !in header[|BearerPrefix|..]
    ensures r.Token? ==> r.token == header[|BearerPrefix|..] && header == BearerPrefix + r.token
  {
    if header == "" then MissingHeader
    else
      var parts := Split(header);
      InspectSplit(header);
      if |parts| != 2 || parts[0] != "Bearer" then InvalidFormat else Token(parts[1])
  }

  /** The two-piece Bearer form, in terms of the header itself. */
  lemma InspectSplit(header: string)
    ensures (|Split(header)| == 2 && Split(header)[0] == "Bearer") <==>
      (|header| >= |BearerPrefix| && header[..|BearerPrefix|] == BearerPrefix && ' ' !in header[|BearerPrefix|..])
    ensures |Split(header)| == 2 && Split(header)[0] == "Bearer" ==> Split(header)[1] == header[|BearerPrefix|..]
  {
    var parts := Split(header);
    if |parts| == 2 && parts[0] == "Bearer" {
      JoinSplit(header);
      assert parts[1..] == [parts[1]];
      assert header == "Bearer" + " " + parts[1];
      assert header[..|BearerPrefix|] == BearerPrefix;
      assert header[|BearerPrefix|..] == parts[1];
    }
    if |header| >= |BearerPrefix| && header[..|BearerPrefix|] == BearerPrefix && ' ' !in header[|BearerPrefix|..] {
      var t := header[|BearerPrefix|..];
      assert header == "Bearer" + " " + t;
      SplitAfterWord("Bearer", t);
      SplitOfWord(t);
    }
  }

  /** "Bearer" spelt otherwise, double spaces and a missing token are all refused; "Bearer "
      hands on the empty token. */
  lemma InspectExamples()
    ensures Inspect("Bearer abc") == Token("abc")
    ensures Inspect("Bearer ") == Token("")
    ensures Inspect("Bearer  x") == InvalidFormat
    ensures Inspect("bearer abc") == InvalidFormat
    ensures Inspect("Bearer") == InvalidFormat
    ensures Inspect("Bearer a b") == InvalidFormat
  {
    assert "Bearer abc"[..7] == BearerPrefix && "Bearer abc"[7..] == "abc";
    assert "Bearer "[..7] == BearerPrefix && "Bearer "[7..] == "";
    assert "Bearer  x"[7..][0] == ' ';
    assert "bearer abc"[0] != BearerPrefix[0];
    assert "Bearer a b"[7..][1] == ' ';
  }

  /** The key CheckAuth stores the authenticated user under. */
  const CurrentUserKey: string := "current_user"

  /** The part of a gin request context the guard touches. */
  class Context {
    /** The Authorization request header ("" when absent). */
    const authorization: string
    /** Values stored with ctx.Set. */
    var keys: map<string, User>
    /** Set by Abort and AbortWithStatusJSON: the handlers after this one are skipped. */
    var aborted: bool
    /** The response written so far, if any. */
    var response: Option<Response>
    /** How many times control was passed on with Next. */
    var passedOn: nat

    constructor (authorization: string, keys: map<string, User>)
      ensures this.authorization == authorization && this.keys == keys
      ensures !aborted && response.None? && passedOn == 0
    {
      this.authorization := authorization;
      this.keys := keys;
      aborted := false;
      response := None;
      passedOn := 0;
    }

    method AbortWithStatusJSON(status: nat, body: Body)
      modifies this`aborted, this`response
      ensures aborted && response == Some(Response(status, body))
    {
      aborted := true;
      response := Some(Response(status, body));
    }

    /** What errs.HTTPErrorResponse writes for an error, then Abort. */
    method AbortWith(r: Response)
      modifies this`aborted, this`response
      ensures aborted && response == Some(r)
    {
      response := Some(r);
      aborted := true;
    }

    method Set(key: string, value: User)
      modifies this`keys
      ensures keys == old(keys)[key := value]
    {
      keys := keys[key := value];
    }

    method Next()
      modifies this`passedOn
      ensures passedOn == old(passedOn) + 1
    {
      passedOn := passedOn + 1;
    }
  }

  /** CheckAuth. `validate` stands for AuthService.ValidateToken and `render` for the response
      errs.HTTPErrorResponse writes. Returns the token handed to `validate`, None when it was not
      called. */
  method CheckAuth(ctx: Context, validate: string -> Result<User, Error>, render: Error -> Response)
    returns (validated: Option<string>)
    modifies ctx
    ensures validated.Some? <==> Inspect(ctx.authorization).Token?
    ensures validated.Some? ==> validated.value == Inspect(ctx.authorization).token
    ensures Inspect(ctx.authorization).MissingHeader? ==>
      && ctx.aborted && ctx.response == Some(Response(StatusUnauthorized, ErrorJson("missing authorization header")))
      && ctx.keys == old(ctx.keys) && ctx.passedOn == old(ctx.passedOn)
    ensures Inspect(ctx.authorization).InvalidFormat? ==>
      && ctx.aborted && ctx.response == Some(Response(StatusUnauthorized, ErrorJson("invalid token")))
      && ctx.keys == old(ctx.keys) && ctx.passedOn == old(ctx.passedOn)
    ensures validated.Some? && validate(validated.value).Err? ==>
      && ctx.aborted && ctx.response == Some(render(validate(validated.value).error))
      && ctx.keys == old(ctx.keys) && ctx.passedOn == old(ctx.passedOn)
    ensures validated.Some? && validate(validated.value).Ok? ==>
      && ctx.keys == old(ctx.keys)[CurrentUserKey := validate(validated.value).value]
      && ctx.passedOn == old(ctx.passedOn) + 1
      && ctx.aborted == old(ctx.aborted) && ctx.response == old(ctx.response)
    ensures var g := GuardedKeys(old(ctx.keys), ctx.authorization, validate);
      && (g.Some? ==> ctx.keys == g.value)
      && (g.None? ==> ctx.keys == old(ctx.keys))
  {
    var header := ctx.authorization;
    if header == "" {
      ctx.AbortWithStatusJSON(StatusUnauthorized, ErrorJson("missing authorization header"));
      return None;
    }
    var bearerToken := Split(header);
    if |bearerToken| != 2 || bearerToken[0] != "Bearer" {
      ctx.AbortWithStatusJSON(StatusUnauthorized, ErrorJson("invalid token"));
      return None;
    }
    validated := Some(bearerToken[1]);
    var user := validate(bearerToken[1]);
    if user.Err? {
      ctx.AbortWith(render(user.error));
      return;
    }
    ctx.Set(CurrentUserKey, user.value);
    ctx.Next();
  }

  /** The context keys after the guard, as a function of the keys before: the validated user
      under "current_user" and nothing else, or no change at all. */
  function GuardedKeys(keys: map<string, User>, header: string, validate: string -> Result<User, Error>): (r: Option<map<string, User>>)
    ensures r.Some? <==> Inspect(header).Token? && validate(Inspect(header).token).Ok?
    ensures r.Some? ==> r.value.Keys == keys.Keys + {CurrentUserKey}
                        && forall k :: k in keys && k != CurrentUserKey ==> r.value[k] == keys[k]
  {
    match Inspect(header)
    case Token(t) => if validate(t).Ok? then Some(keys[CurrentUserKey := validate(t).value]) else None
    case _ => None
  }
}
