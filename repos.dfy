/** repos/posts.go: a post repository over two database tables. The database's own failures
    (connection loss, constraint violations other than the primary key) are the `fault`
    parameter of each call: Some(e) when the driver reports e. */
module Repos {
  import opened Wrappers
  import opened Errors
  import opened Models

  /** What DB.Delete(&models.User{}, id) followed by the RowsAffected check does to the users
      table and reports: the driver's error as it is, "post not found" when no row went. */
  function DeleteUserRow(users: map<nat, User>, id: nat, fault: Option<Error>): (r: (Option<Error>, map<nat, User>))
    ensures fault.Some? ==> r == (fault, users)
    ensures fault.None? ==> (r.0.None? <==> id in users)
    ensures fault.None? && id in users ==> r.1 == users - {id}
    ensures fault.None? && id !in users ==> r == (Some(PostNotFound), users)
  {
    if fault.Some? then (fault, users) else DeleteRow(users, id, PostNotFound)
  }

  /** After a successful Delete(id), a second Delete(id) reports "post not found". */
  lemma SecondDeleteFails(users: map<nat, User>, id: nat)
    requires DeleteUserRow(users, id, None).0.None?
    ensures DeleteUserRow(DeleteUserRow(users, id, None).1, id, None) == (Some(PostNotFound), users - {id})
  {
    DeleteTwiceFails(users, id, PostNotFound);
  }

  class PostRepo {
    /** The posts table. */
    var posts: map<nat, Post>
    /** The users table, which Delete writes to. */
    var users: map<nat, User>

    ghost predicate Valid()
      reads this
    {
      Keyed(posts)
    }

    constructor (posts: map<nat, Post>, users: map<nat, User>)
      requires Keyed(posts)
      ensures Valid() && this.posts == posts && this.users == users
    {
      this.posts := posts;
      this.users := users;
    }

    /** Find(&posts): every stored post (listed by ascending id, the model's choice of an
        unspecified order), or nil and the driver's error. */
    method GetAll(fault: Option<Error>) returns (r: Result<seq<Post>, Error>)
      requires Valid()
      ensures fault.Some? ==> r == Err(fault.value)
      ensures fault.None? ==> r.Ok? && |r.value| == |posts|
      ensures fault.None? ==> forall p :: p in r.value <==> p in posts.Values
      ensures fault.None? ==> forall i, j :: 0 <= i < j < |r.value| ==> r.value[i].id < r.value[j].id
    {
      if fault.Some? {
        return Err(fault.value);
      }
      RowsOfKeyedAreSorted(posts);
      r := Ok(Rows(posts));
    }

    /** First(&post, id): the post stored under id, or nil and an error. */
    method GetByID(id: nat, fault: Option<Error>) returns (r: Result<Post, Error>)
      requires Valid()
      ensures fault.Some? ==> r == Err(fault.value)
      ensures fault.None? ==> (r.Ok? <==> id in posts)
      ensures fault.None? && r.Ok? ==> r.value == posts[id] && r.value.id == id
      ensures fault.None? && r.Err? ==> r.error == RecordNotFound
    {
      if fault.Some? {
        return Err(fault.value);
      }
      r := Lookup(posts, id);
    }

    /** Create(post): inserts the post and returns it as stored (its id filled in when it was 0);
        nothing is stored on an error. */
    method Create(post: Post, fault: Option<Error>) returns (r: Result<Post, Error>)
      requires Valid()
      modifies this`posts
      ensures Valid()
      ensures fault.Some? ==> r == Err(fault.value) && posts == old(posts)
      ensures fault.None? ==> (r, posts) == Insert(old(posts), post)
      ensures r.Ok? ==> (r.value.id in posts && posts[r.value.id] == r.value
                         && r.value == post.(id := r.value.id))
    {
      if fault.Some? {
        return Err(fault.value);
      }
      var out := Insert(posts, post);
      r, posts := out.0, out.1;
    }

    /** Delete(id): removes the USER row with that id; the posts table is not touched.
        Reports "post not found" when no row was affected. */
    method Delete(id: nat, fault: Option<Error>) returns (r: Option<Error>)
      requires Valid()
      modifies this`users
      ensures Valid()
      ensures (r, users) == DeleteUserRow(old(users), id, fault)
      ensures posts == old(posts)
    {
      var out := DeleteUserRow(users, id, fault);
      r, users := out.0, out.1;
    }
  }

  /** Two deletes of the same id in a row: the second one fails, and the posts stay. */
  method DeleteTwice(repo: PostRepo, id: nat) returns (first: Option<Error>, second: Option<Error>)
    requires repo.Valid()
    modifies repo
    ensures first.None? ==> second == Some(PostNotFound)
    ensures repo.users == old(repo.users) - {id}
    ensures repo.posts == old(repo.posts)
  {
    first := repo.Delete(id, None);
    second := repo.Delete(id, None);
  }
}
