/** internal/services/posts.go: the post service. Its repositories (internal/repos) are not part
    of this model; the service's state is the content of the tables they read and write, and each
    repository call is given the table semantics of the Models module: lookups by primary key,
    inserts that refuse a taken id, deletes that fail when nothing was deleted. */
module Services {
  import opened Wrappers
  import opened Errors
  import opened Models

  /** The posts associated with a topic through post_topics, in the order given. */
  function Tagged(rows: seq<Post>, postTopics: set<(nat, nat)>, topicId: nat): (r: seq<Post>)
    ensures forall p :: p in r <==> p in rows && (p.id, topicId) in postTopics
    ensures |r| <= |rows|
  {
    if rows == [] then []
    else
      var rest := Tagged(rows[1..], postTopics, topicId);
      assert forall p :: p in rows <==> p == rows[0] || p in rows[1..];
      if (rows[0].id, topicId) in postTopics then [rows[0]] + rest else rest
  }

  ghost predicate IdsAscending(rows: seq<Post>)
  {
    forall i, j :: 0 <= i < j < |rows| ==> rows[i].id < rows[j].id
  }

  /** Dropping the first post keeps the order. */
  lemma AscendingTail(rows: seq<Post>)
    requires rows != [] && IdsAscending(rows)
    ensures IdsAscending(rows[1..])
  {
    forall i, j | 0 <= i < j < |rows[1..]| ensures rows[1..][i].id < rows[1..][j].id {
      assert rows[1..][i] == rows[i + 1] && rows[1..][j] == rows[j + 1];
    }
  }

  /** A post below every post of an ascending list can go in front of it. */
  lemma AscendingCons(p: Post, rest: seq<Post>)
    requires IdsAscending(rest) && forall q :: q in rest ==> p.id < q.id
    ensures IdsAscending([p] + rest)
  {
    var r := [p] + rest;
    forall i, j | 0 <= i < j < |r| ensures r[i].id < r[j].id {
      assert r[j] == rest[j - 1];
      if i > 0 { assert r[i] == rest[i - 1]; }
    }
  }

  /** Filtering keeps the storage order. */
  lemma {:induction false} TaggedKeepsOrder(rows: seq<Post>, postTopics: set<(nat, nat)>, topicId: nat)
    requires IdsAscending(rows)
    ensures IdsAscending(Tagged(rows, postTopics, topicId))
  {
    if rows != [] {
      var rest := Tagged(rows[1..], postTopics, topicId);
      AscendingTail(rows);
      TaggedKeepsOrder(rows[1..], postTopics, topicId);
      if (rows[0].id, topicId) in postTopics {
        forall q | q in rest ensures rows[0].id < q.id {
          var k :| 0 <= k < |rows[1..]| && rows[1..][k] == q;
          assert rows[k + 1] == q;
        }
        AscendingCons(rows[0], rest);
      }
    }
  }

  /** The service's PostService.Create: the author must be a stored user, otherwise a plain
      "no author with ID n" error and no insertion; then the insert's own result. */
  function CreatePost(posts: map<nat, Post>, users: map<nat, User>, p: Post): (r: (Result<Post, Error>, map<nat, Post>))
    ensures p.authorId !in users ==> r == (Err(NoAuthor(p.authorId)), posts)
    ensures r.0.Ok? <==> p.authorId in users && (p.id == 0 || p.id !in posts)
    ensures r.0.Err? ==> r.1 == posts && !r.0.error.ValidationError?
    ensures r.0.Ok? ==> (r.0.value == p.(id := r.0.value.id) && r.0.value.id !in posts
                         && r.1 == posts[r.0.value.id := r.0.value])
  {
    if p.authorId !in users then (Err(NoAuthor(p.authorId)), posts)
    else Insert(posts, p)
  }

  /** PostService.Delete: the repository's delete of a post row, passed through; an absent post
      is reported with the "post not found" message the repository's Delete builds. */
  function DeletePost(posts: map<nat, Post>, id: nat): (r: (Option<Error>, map<nat, Post>))
    ensures r.0.None? <==> id in posts
    ensures r.0.None? ==> r.1 == posts - {id}
    ensures r.0.Some? ==> r == (Some(PostNotFound), posts)
  {
    DeleteRow(posts, id, PostNotFound)
  }

  /** A post that was created can be read back, and deleted once. */
  lemma CreateThenGetThenDelete(posts: map<nat, Post>, users: map<nat, User>, p: Post)
    requires Keyed(posts)
    requires CreatePost(posts, users, p).0.Ok?
    ensures Lookup(CreatePost(posts, users, p).1, CreatePost(posts, users, p).0.value.id) == CreatePost(posts, users, p).0
    ensures DeletePost(CreatePost(posts, users, p).1, CreatePost(posts, users, p).0.value.id) == (None, posts)
  {
    var out := CreatePost(posts, users, p);
    var q := out.0.value;
    assert out.1 == posts[q.id := q];
    assert q.id !in posts;
    assert out.1 - {q.id} == posts;
  }

  class PostService {
    /** The posts table. */
    var posts: map<nat, Post>
    /** The users table, which the author check reads. */
    var users: map<nat, User>
    /** The post_topics join table. */
    var postTopics: set<(nat, nat)>

    ghost predicate Valid()
      reads this
    {
      Keyed(posts)
    }

    constructor (posts: map<nat, Post>, users: map<nat, User>, postTopics: set<(nat, nat)>)
      requires Keyed(posts)
      ensures Valid() && this.posts == posts && this.users == users && this.postTopics == postTopics
    {
      this.posts := posts;
      this.users := users;
      this.postTopics := postTopics;
    }

    /** GetAll: every stored post, listed by ascending id as the model orders rows; reads only. */
    method GetAll() returns (r: Result<seq<Post>, Error>)
      requires Valid()
      ensures r.Ok? && |r.value| == |posts|
      ensures forall p :: p in r.value <==> p in posts.Values
      ensures forall i, j :: 0 <= i < j < |r.value| ==> r.value[i].id < r.value[j].id
    {
      RowsOfKeyedAreSorted(posts);
      r := Ok(Rows(posts));
    }

    /** GetByID: the stored post, or the repository's not-found error; reads only. */
    method GetByID(id: nat) returns (r: Result<Post, Error>)
      requires Valid()
      ensures r.Ok? <==> id in posts
      ensures r.Ok? ==> r.value == posts[id] && r.value.id == id
      ensures r.Err? ==> r.error == RecordNotFound
    {
      r := Lookup(posts, id);
    }

    /** GetByTopic: exactly the stored posts that post_topics ties to the topic, listed by
        ascending id as the model orders rows. */
    method GetByTopic(topicId: nat) returns (r: Result<seq<Post>, Error>)
      requires Valid()
      ensures r.Ok?
      ensures forall p :: p in r.value <==> p in posts.Values && (p.id, topicId) in postTopics
      ensures forall i, j :: 0 <= i < j < |r.value| ==> r.value[i].id < r.value[j].id
    {
      RowsOfKeyedAreSorted(posts);
      TaggedKeepsOrder(Rows(posts), postTopics, topicId);
      r := Ok(Tagged(Rows(posts), postTopics, topicId));
    }

    /** Create: checks the author first; only then inserts. */
    method Create(postData: Post) returns (r: Result<Post, Error>)
      requires Valid()
      modifies this`posts
      ensures Valid()
      ensures (r, posts) == CreatePost(old(posts), users, postData)
    {
      if postData.authorId !in users {
        return Err(NoAuthor(postData.authorId));
      }
      var out := Insert(posts, postData);
      r, posts := out.0, out.1;
    }

    /** Delete: fails iff the repository's delete fails; no other effect. */
    method Delete(id: nat) returns (r: Option<Error>)
      requires Valid()
      modifies this`posts
      ensures Valid()
      ensures (r, posts) == DeletePost(old(posts), id)
    {
      var out := DeletePost(posts, id);
      r, posts := out.0, out.1;
    }
  }
}
