/** The records of internal/models/models.go, the predicates their `binding` tags define, the
    set-level rules their `gorm` tags define, and the table semantics GORM gives the repositories. */
module Models {
  import opened Wrappers
  import opened Errors

  /** A stored user; ids are GORM's uint primary keys. */
  datatype User = User(id: nat, username: string)

  /** A stored post. An author id of 0 stands for a NULL author column. */
  datatype Post = Post(id: nat, title: string, content: string, authorId: nat)

  datatype Comment = Comment(id: nat, content: string, postId: nat, authorId: nat)

  datatype Topic = Topic(id: nat, name: string)

  datatype CreatePostRequest = CreatePostRequest(title: string, content: string, authorId: nat)

  datatype CreateCommentRequest = CreateCommentRequest(content: string, postId: nat, authorId: nat)

  // ---------------------------------------------------------------------------------------
  // Binding tags, as the validator behind gin's ShouldBindJSON reads them

  /** A field value as the validator sees it: a string or an unsigned integer. */
  datatype Value = Text(s: string) | Unsigned(n: nat)

  /** The tags used on the request structs: `required` and `min=N`. */
  datatype Tag = Required | Min(bound: nat)

  datatype Field = Field(name: string, value: Value, tags: seq<Tag>)

  /** One reported failure: the field's name and the first tag it failed. */
  datatype FieldError = FieldError(field: string, tag: Tag)

  /** `required` rejects the zero value; `min=N` bounds a string's length or a number's value. */
  predicate Satisfies(v: Value, t: Tag)
  {
    match t
    case Required => (match v case Text(s) => s != [] case Unsigned(n) => n != 0)
    case Min(b) => (match v case Text(s) => |s| >= b case Unsigned(n) => n >= b)
  }

  /** The validator checks a field's tags left to right and stops at the first that fails. */
  function FirstFailure(v: Value, tags: seq<Tag>): (r: Option<Tag>)
    ensures r.None? <==> forall j :: 0 <= j < |tags| ==> Satisfies(v, tags[j])
    ensures r.Some? ==> r.value in tags && !Satisfies(v, r.value)
    ensures r.Some? ==> exists i :: 0 <= i < |tags| && tags[i] == r.value && !Satisfies(v, tags[i])
                                     && forall j :: 0 <= j < i ==> Satisfies(v, tags[j])
  {
    if tags == [] then None
    else if !Satisfies(v, tags[0]) then Some(tags[0])
    else
      assert forall j :: 1 <= j < |tags| ==> tags[j] == tags[1..][j - 1];
      FirstFailure(v, tags[1..])
  }

  /** What one field contributes to the report: nothing, or its first failing tag. */
  function FieldErrors(f: Field): (errs: seq<FieldError>)
    ensures |errs| <= 1
  {
    match FirstFailure(f.value, f.tags)
    case None => []
    case Some(t) => [FieldError(f.name, t)]
  }

  /** The failures of a whole struct, one per failing field, in field order. */
  function Validate(fields: seq<Field>): (errs: seq<FieldError>)
    ensures errs == [] <==> forall i :: 0 <= i < |fields| ==> FieldErrors(fields[i]) == []
    ensures |errs| <= |fields|
    ensures forall e :: e in errs <==> exists i :: 0 <= i < |fields| && e in FieldErrors(fields[i])
  {
    if fields == [] then []
    else
      assert forall i :: 1 <= i < |fields| ==> fields[i] == fields[1..][i - 1];
      FieldErrors(fields[0]) + Validate(fields[1..])
  }

  /** Validation of a three-field struct reports exactly the fields' first failures. */
  lemma ValidateThree(a: Field, b: Field, c: Field)
    ensures Validate([a, b, c]) == FieldErrors(a) + FieldErrors(b) + FieldErrors(c)
  {
    assert [a, b, c][1..] == [b, c];
    assert [b, c][1..] == [c];
    assert [c][1..] == [];
    assert Validate([c]) == FieldErrors(c);
  }

  /** `required,min=10` on a string: an empty one fails `required`, a short one fails `min`. */
  lemma RequiredMinFailure(s: string, n: nat)
    ensures FirstFailure(Text(s), [Required, Min(n)]) ==
      if s == [] then Some(Required) else if |s| < n then Some(Min(n)) else None
  {
    assert [Required, Min(n)][1..] == [Min(n)];
    assert [Min(n)][1..] == [];
  }

  lemma RequiredFailure(v: Value)
    ensures FirstFailure(v, [Required]) == if Satisfies(v, Required) then None else Some(Required)
  {
    assert [Required][1..] == [];
  }

  /** CreatePostRequest: `required` title, `required,min=10` content, `required` author id. */
  function CreatePostFields(r: CreatePostRequest): seq<Field>
  {
    [ Field("Title", Text(r.title), [Required]),
      Field("Content", Text(r.content), [Required, Min(10)]),
      Field("AuthorID", Unsigned(r.authorId), [Required]) ]
  }

  /** A post request binds iff the title is non-empty, the content has at least 10 characters
      and the author id is non-zero. */
  function ValidateCreatePost(r: CreatePostRequest): (errs: seq<FieldError>)
    ensures errs == [] <==> r.title != [] && |r.content| >= 10 && r.authorId != 0
  {
    CreatePostReport(r);
    Validate(CreatePostFields(r))
  }

  /** Which tag each bad field of a post request fails: an empty content fails `required`, a
      short non-empty one fails `min`. */
  lemma CreatePostFailures(r: CreatePostRequest)
    ensures FieldError("Content", Required) in ValidateCreatePost(r) <==> r.content == []
    ensures FieldError("Content", Min(10)) in ValidateCreatePost(r) <==> r.content != [] && |r.content| < 10
    ensures FieldError("Title", Required) in ValidateCreatePost(r) <==> r.title == []
    ensures FieldError("AuthorID", Required) in ValidateCreatePost(r) <==> r.authorId == 0
  {
    CreatePostReport(r);
    var title := if r.title == [] then [FieldError("Title", Required)] else [];
    var content := if r.content == [] then [FieldError("Content", Required)]
                   else if |r.content| < 10 then [FieldError("Content", Min(10))] else [];
    var author := if r.authorId == 0 then [FieldError("AuthorID", Required)] else [];
    assert ValidateCreatePost(r) == title + content + author;
  }

  /** The report for a post request, field by field. */
  lemma CreatePostReport(r: CreatePostRequest)
    ensures Validate(CreatePostFields(r)) ==
      (if r.title == [] then [FieldError("Title", Required)] else []) +
      (if r.content == [] then [FieldError("Content", Required)]
       else if |r.content| < 10 then [FieldError("Content", Min(10))] else []) +
      (if r.authorId == 0 then [FieldError("AuthorID", Required)] else [])
  {
    var fs := CreatePostFields(r);
    ValidateThree(fs[0], fs[1], fs[2]);
    RequiredFailure(Text(r.title));
    RequiredMinFailure(r.content, 10);
    RequiredFailure(Unsigned(r.authorId));
  }

  /** CreateCommentRequest: `required` content and author id; PostID carries no tag. */
  function CreateCommentFields(r: CreateCommentRequest): seq<Field>
  {
    [ Field("Content", Text(r.content), [Required]),
      Field("PostID", Unsigned(r.postId), []),
      Field("AuthorID", Unsigned(r.authorId), [Required]) ]
  }

  /** A comment request binds iff its content is non-empty and its author id non-zero,
      whatever its post id. */
  function ValidateCreateComment(r: CreateCommentRequest): (errs: seq<FieldError>)
    ensures errs == [] <==> r.content != [] && r.authorId != 0
    ensures forall e :: e in errs ==> e.field != "PostID"
  {
    var fs := CreateCommentFields(r);
    ValidateThree(fs[0], fs[1], fs[2]);
    RequiredFailure(Text(r.content));
    RequiredFailure(Unsigned(r.authorId));
    Validate(fs)
  }

  /** A bound User needs a username; a bound Topic needs a name. */
  function ValidateUser(u: User): (errs: seq<FieldError>)
    ensures errs == [] <==> u.username != []
  {
    var fs := [Field("Username", Text(u.username), [Required])];
    assert fs[1..] == [];
    RequiredFailure(Text(u.username));
    Validate(fs)
  }

  function ValidateTopic(t: Topic): (errs: seq<FieldError>)
    ensures errs == [] <==> t.name != []
  {
    var fs := [Field("Name", Text(t.name), [Required])];
    assert fs[1..] == [];
    RequiredFailure(Text(t.name));
    Validate(fs)
  }

  // ---------------------------------------------------------------------------------------
  // Unique indexes (User.Username, Topic.Name)

  /** No two rows of the table share a key. */
  ghost predicate UniqueOn<T>(rows: map<nat, T>, key: T -> string)
  {
    forall a, b :: a in rows && b in rows && key(rows[a]) == key(rows[b]) ==> a == b
  }

  /** The error a unique index or a primary key reports on a second row with the same value. */
  const DuplicatedKey: Error := PlainError("duplicated key not allowed")

  /** Inserting a row into a table with a unique index: the database refuses a taken primary key
      or a taken indexed value instead of overwriting. */
  function InsertUnique<T>(rows: map<nat, T>, id: nat, row: T, key: T -> string): (r: Result<map<nat, T>, Error>)
    ensures r.Ok? <==> id !in rows && forall k :: k in rows ==> key(rows[k]) != key(row)
    ensures r.Ok? ==> r.value == rows[id := row]
    ensures r.Err? ==> r.error == DuplicatedKey
  {
    if id in rows || exists k :: k in rows && key(rows[k]) == key(row) then Err(DuplicatedKey)
    else Ok(rows[id := row])
  }

  /** A successful insertion keeps the index unique. */
  lemma InsertKeepsUnique<T>(rows: map<nat, T>, id: nat, row: T, key: T -> string)
    requires UniqueOn(rows, key)
    ensures InsertUnique(rows, id, row, key).Ok? ==> UniqueOn(InsertUnique(rows, id, row, key).value, key)
  {
  }

  function Username(u: User): string { u.username }

  function TopicName(t: Topic): string { t.name }

  /** Creating the topic "golang" a second time fails, and the first one stays. */
  lemma SecondTopicWithSameNameFails(topics: map<nat, Topic>, id1: nat, id2: nat)
    requires forall k :: k in topics ==> topics[k].name != "golang"
    requires id1 !in topics
    ensures InsertUnique(topics, id1, Topic(id1, "golang"), TopicName).Ok?
    ensures InsertUnique(InsertUnique(topics, id1, Topic(id1, "golang"), TopicName).value, id2, Topic(id2, "golang"), TopicName) == Err(DuplicatedKey)
  {
    var t1 := InsertUnique(topics, id1, Topic(id1, "golang"), TopicName).value;
    assert id1 in t1 && TopicName(t1[id1]) == "golang";
  }

  // ---------------------------------------------------------------------------------------
  // The post_topics join table

  /** Post.Topics and Topic.Posts are both read from one set of (post id, topic id) pairs. */
  function TopicsOf(postTopics: set<(nat, nat)>, postId: nat): set<nat>
  {
    set pt | pt in postTopics && pt.0 == postId :: pt.1
  }

  function PostsOf(postTopics: set<(nat, nat)>, topicId: nat): set<nat>
  {
    set pt | pt in postTopics && pt.1 == topicId :: pt.0
  }

  /** A post lists a topic iff that topic lists the post. */
  lemma JoinIsSymmetric(postTopics: set<(nat, nat)>, postId: nat, topicId: nat)
    ensures topicId in TopicsOf(postTopics, postId) <==> postId in PostsOf(postTopics, topicId)
  {
    if topicId in TopicsOf(postTopics, postId) {
      assert (postId, topicId) in postTopics;
    }
    if postId in PostsOf(postTopics, topicId) {
      assert (postId, topicId) in postTopics;
    }
  }

  // ---------------------------------------------------------------------------------------
  // OnDelete:SET NULL on Post.Author and Comment.Author

  /** Deleting a user row: the posts and comments stay, and those by that user lose their
      author reference (0 standing for NULL). */
  function DeleteUser(users: map<nat, User>, posts: map<nat, Post>, comments: map<nat, Comment>, userId: nat)
    : (r: (map<nat, User>, map<nat, Post>, map<nat, Comment>))
    ensures r.0 == users - {userId}
    ensures r.1.Keys == posts.Keys && r.2.Keys == comments.Keys
    ensures forall k :: k in posts ==>
      r.1[k] == if posts[k].authorId == userId then posts[k].(authorId := 0) else posts[k]
    ensures forall k :: k in comments ==>
      r.2[k] == if comments[k].authorId == userId then comments[k].(authorId := 0) else comments[k]
  {
    ( users - {userId},
      map k | k in posts :: if posts[k].authorId == userId then posts[k].(authorId := 0) else posts[k],
      map k | k in comments :: if comments[k].authorId == userId then comments[k].(authorId := 0) else comments[k] )
  }

  /** Every author reference is NULL or names a stored user. */
  ghost predicate AuthorsExist(users: map<nat, User>, posts: map<nat, Post>, comments: map<nat, Comment>)
  {
    && (forall k :: k in posts ==> posts[k].authorId == 0 || posts[k].authorId in users)
    && (forall k :: k in comments ==> comments[k].authorId == 0 || comments[k].authorId in users)
  }

  /** SET NULL keeps every author reference valid. */
  lemma DeleteUserKeepsAuthorsValid(users: map<nat, User>, posts: map<nat, Post>, comments: map<nat, Comment>, userId: nat)
    requires AuthorsExist(users, posts, comments)
    ensures var r := DeleteUser(users, posts, comments, userId); AuthorsExist(r.0, r.1, r.2)
  {
  }

  // ---------------------------------------------------------------------------------------
  // Tables keyed by primary key, as GORM reads and writes them

  /** Every stored post sits under its own id. */
  ghost predicate Keyed(posts: map<nat, Post>)
  {
    forall k :: k in posts ==> posts[k].id == k
  }

  /** Every non-empty set of keys has a least element. */
  lemma {:induction false} LeastKeyExists(ks: set<nat>)
    requires ks != {}
    ensures exists m :: m in ks && forall k :: k in ks ==> m <= k
    decreases ks
  {
    var x :| x in ks;
    if ks != {x} {
      LeastKeyExists(ks - {x});
      var m :| m in ks - {x} && forall k :: k in ks - {x} ==> m <= k;
      var least := if x < m then x else m;
      forall k | k in ks ensures least <= k {
        if k != x { assert k in ks - {x}; }
      }
      assert least in ks;
    } else {
      assert forall k :: k in ks ==> x <= k;
    }
  }

  /** The least key of a non-empty set of keys. */
  function MinKey(ks: set<nat>): (m: nat)
    requires ks != {}
    ensures m in ks && forall k :: k in ks ==> m <= k
  {
    LeastKeyExists(ks);
    var m :| m in ks && forall k :: k in ks ==> m <= k;
    m
  }

  ghost predicate Ascending(ids: seq<nat>)
  {
    forall i, j :: 0 <= i < j < |ids| ==> ids[i] < ids[j]
  }

  /** The sequence holds exactly the keys of the set. */
  ghost predicate Lists(ids: seq<nat>, ks: set<nat>)
  {
    && (forall i :: 0 <= i < |ids| ==> ids[i] in ks)
    && (forall k :: k in ks ==> k in ids)
  }

  /** Putting the least key in front of the ascending list of the others lists them all, ascending. */
  lemma PrependLeast(m: nat, ks: set<nat>, rest: seq<nat>)
    requires m in ks && forall k :: k in ks ==> m <= k
    requires Lists(rest, ks - {m}) && Ascending(rest)
    ensures Lists([m] + rest, ks) && Ascending([m] + rest)
  {
    var ids := [m] + rest;
    forall i | 1 <= i < |ids| ensures ids[i] == rest[i - 1] && ids[i] in ks - {m} {
    }
    forall k | k in ks ensures k in ids {
      if k != m { assert k in rest; }
    }
    forall i, j | 0 <= i < j < |ids| ensures ids[i] < ids[j] {
      if i > 0 { assert ids[i] == rest[i - 1]; }
    }
  }

  /** The keys in ascending order. Find adds no ORDER BY, so the database's row order is
      unspecified; the model fixes it to ascending primary key. */
  function SortedIds(ks: set<nat>): (ids: seq<nat>)
    ensures |ids| == |ks| && Lists(ids, ks) && Ascending(ids)
    decreases ks
  {
    if ks == {} then []
    else
      var m := MinKey(ks);
      var rest := SortedIds(ks - {m});
      PrependLeast(m, ks, rest);
      [m] + rest
  }

  /** Every stored value sits at the position of its key in the id list. */
  lemma RowsCover(m: map<nat, Post>, ids: seq<nat>, rows: seq<Post>)
    requires Lists(ids, m.Keys) && |rows| == |ids|
    requires forall i :: 0 <= i < |ids| ==> rows[i] == m[ids[i]]
    ensures forall r :: r in rows <==> r in m.Values
  {
    forall r | r in m.Values ensures r in rows {
      var k :| k in m && m[k] == r;
      var i :| 0 <= i < |ids| && ids[i] == k;
      assert rows[i] == r;
    }
    forall r | r in rows ensures r in m.Values {
      var i :| 0 <= i < |rows| && rows[i] == r;
      assert ids[i] in m;
    }
  }

  /** All stored posts, by ascending id (the model's choice of Find's unspecified order). */
  function Rows(m: map<nat, Post>): (rows: seq<Post>)
    ensures |rows| == |m|
    ensures forall r :: r in rows <==> r in m.Values
  {
    var ids := SortedIds(m.Keys);
    var rows := seq(|ids|, i requires 0 <= i < |ids| => m[ids[i]]);
    RowsCover(m, ids, rows);
    rows
  }

  /** The stored posts come back each once, in ascending id order. */
  lemma RowsOfKeyedAreSorted(posts: map<nat, Post>)
    requires Keyed(posts)
    ensures forall i, j :: 0 <= i < j < |Rows(posts)| ==> Rows(posts)[i].id < Rows(posts)[j].id
  {
    var ids := SortedIds(posts.Keys);
    assert forall i :: 0 <= i < |ids| ==> Rows(posts)[i] == posts[ids[i]];
  }

  /** The id the database assigns to a row inserted with id 0: one above every stored id. */
  function NextId<T>(m: map<nat, T>): (id: nat)
    ensures id != 0 && id !in m && forall k :: k in m ==> k < id
  {
    var ids := SortedIds(m.Keys);
    if ids == [] then 1 else ids[|ids| - 1] + 1
  }

  /** GORM's Create on the posts table: a zero id is filled in, a taken id is refused, and the
      stored post is the one returned. */
  function Insert(posts: map<nat, Post>, p: Post): (r: (Result<Post, Error>, map<nat, Post>))
    ensures r.0.Err? <==> p.id != 0 && p.id in posts
    ensures r.0.Err? ==> r.0.error == DuplicatedKey && r.1 == posts
    ensures r.0.Ok? ==> var q := r.0.value;
      && q == p.(id := q.id) && q.id != 0 && q.id !in posts
      && (p.id != 0 ==> q.id == p.id)
      && r.1 == posts[q.id := q]
    ensures Keyed(posts) ==> Keyed(r.1)
  {
    if p.id == 0 then
      var q := p.(id := NextId(posts));
      (Ok(q), posts[q.id := q])
    else if p.id in posts then (Err(DuplicatedKey), posts)
    else (Ok(p), posts[p.id := p])
  }

  /** gorm.ErrRecordNotFound, which First reports for an absent primary key. */
  const RecordNotFound: Error := PlainError("record not found")

  /** The message the post repository's Delete builds when no row was affected (GORM's Delete
      itself reports no error then, only RowsAffected == 0). */
  const PostNotFound: Error := PlainError("post not found")

  /** GORM's First by primary key. */
  function Lookup(posts: map<nat, Post>, id: nat): (r: Result<Post, Error>)
    ensures r.Ok? <==> id in posts
    ensures r.Ok? ==> r.value == posts[id]
    ensures r.Err? ==> r.error == RecordNotFound
  {
    if id in posts then Ok(posts[id]) else Err(RecordNotFound)
  }

  /** A delete by primary key that reports `missing` when it affected no row. */
  function DeleteRow<T>(rows: map<nat, T>, id: nat, missing: Error): (r: (Option<Error>, map<nat, T>))
    ensures r.0.None? <==> id in rows
    ensures r.0.None? ==> r.1 == rows - {id} && |r.1| == |rows| - 1
    ensures r.0.Some? ==> r.0 == Some(missing) && r.1 == rows
  {
    if id in rows then (None, rows - {id}) else (Some(missing), rows)
  }

  /** Deleting is not idempotent: once a delete succeeds, the same delete fails. */
  lemma DeleteTwiceFails<T>(rows: map<nat, T>, id: nat, missing: Error)
    ensures DeleteRow(rows, id, missing).0.None? ==>
      DeleteRow(DeleteRow(rows, id, missing).1, id, missing) == (Some(missing), rows - {id})
  {
  }
}
