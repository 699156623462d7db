/** PostService: post lookups, the Admin-only creation of posts, and the update and delete of
    one post. */
module Posts {
  import opened Tables
  import opened Errors
  import opened Schema
  import opened Validation
  import opened Store
  import opened Users

  function PostIdIs(id: Guid): PostRow -> bool { (p: PostRow) => p.id == id }
  function TitleIs(title: string): PostRow -> bool { (p: PostRow) => p.title == title }
  function AdminWithId(id: Guid): UserRow -> bool { (u: UserRow) => u.id == id && u.role == Admin }

  /** `FirstOrDefaultAsync(p) ?? throw new ArgumentException("Post does not exist")`. */
  function FindPost(posts: seq<PostRow>, p: PostRow -> bool): (r: Result<PostRow, Error>)
    ensures r.Failure? <==> forall x :: x in posts ==> !p(x)
    ensures r.Failure? ==> r.error == PostDoesNotExist
    ensures r.Success? ==> r.value in posts && p(r.value)
  {
    match FirstWhere(posts, p)
    case None => Failure(PostDoesNotExist)
    case Some(x) => Success(x)
  }

  /** Some user with that id holds the Admin role. */
  predicate IsAdmin(users: seq<UserRow>, id: Guid) {
    exists u :: u in users && u.id == id && u.role == Admin
  }

  /** A post appended under a fresh id is the one GetPostById finds. */
  lemma CreatedPostFoundById(posts: seq<PostRow>, row: PostRow)
    requires !HasPost(posts, row.id)
    ensures FindPost(posts + [row], PostIdIs(row.id)) == Success(row)
  {
    FirstWhereAppendNew(posts, row, PostIdIs(row.id));
  }

  /** Inserting a fitting post under a fresh id, by an existing author, keeps the database valid. */
  lemma InsertPostKeepsValid(db: Db, row: PostRow)
    requires Valid(db)
    requires PostFits(row) && !HasPost(db.posts, row.id) && HasUser(db.users, row.authorId)
    ensures Valid(db.(posts := db.posts + [row]))
  {
    AppendKeepsKeysUnique(db.posts, row, PostKey);
    forall c | c in db.commentaries ensures HasPost(db.posts + [row], c.postId) {
      var p :| p in db.posts && p.id == c.postId;
      assert p in db.posts + [row];
    }
  }

  /** ExecuteUpdate setting `Title` and `Content` on the rows with that id. */
  function SetPostText(posts: seq<PostRow>, id: Guid, title: string, content: string): (r: seq<PostRow>)
    ensures |r| == |posts|
    ensures forall i :: 0 <= i < |posts| ==> r[i] == posts[i].(title := r[i].title, content := r[i].content)
    ensures forall i :: 0 <= i < |posts| ==>
      && r[i].title == (if posts[i].id == id then title else posts[i].title)
      && r[i].content == (if posts[i].id == id then content else posts[i].content)
  {
    UpdateWhere(posts, PostIdIs(id), (p: PostRow) => p.(title := title, content := content))
  }

  function PostIdIsNot(id: Guid): PostRow -> bool { (p: PostRow) => p.id != id }
  function UnderPostOtherThan(id: Guid): CommentaryRow -> bool { (c: CommentaryRow) => c.postId != id }

  /** DeletePost: the ExecuteDelete of the post, with the cascade the required post
      relationship gives to the commentaries under it. */
  function RemovePost(db: Db, id: Guid): (r: Db)
    ensures r.users == db.users
    ensures forall p :: p in r.posts <==> p in db.posts && p.id != id
    ensures forall c :: c in r.commentaries <==> c in db.commentaries && c.postId != id
  {
    Db(db.users, Filter(db.posts, PostIdIsNot(id)), Filter(db.commentaries, UnderPostOtherThan(id)))
  }

  /** Deleting a post keeps every table constraint, references included. */
  lemma RemovePostKeepsValid(db: Db, id: Guid)
    requires Valid(db)
    ensures Valid(RemovePost(db, id))
  {
    var r := RemovePost(db, id);
    FilterKeepsKeysUnique(db.posts, PostIdIsNot(id), PostKey);
    FilterKeepsKeysUnique(db.commentaries, UnderPostOtherThan(id), CommentaryKey);
    forall c | c in r.commentaries ensures HasPost(r.posts, c.postId) {
      var p :| p in db.posts && p.id == c.postId;
      assert p in r.posts;
    }
  }

  /** Deleting the same post twice is deleting it once. */
  lemma RemovePostIdempotent(db: Db, id: Guid)
    ensures RemovePost(RemovePost(db, id), id) == RemovePost(db, id)
  {
    FilterIdempotent(db.posts, PostIdIsNot(id));
    FilterIdempotent(db.commentaries, UnderPostOtherThan(id));
  }

  /** Deleting an id no post has changes nothing. */
  lemma RemoveAbsentPost(db: Db, id: Guid)
    requires Valid(db)
    requires !HasPost(db.posts, id)
    ensures RemovePost(db, id) == db
  {
    FilterKeepsAll(db.posts, PostIdIsNot(id));
    FilterKeepsAll(db.commentaries, UnderPostOtherThan(id));
  }

  class PostService {
    const context: ChecatsDbContext
    const userService: UserService

    constructor (context: ChecatsDbContext, userService: UserService)
      ensures this.context == context && this.userService == userService
    {
      this.context := context;
      this.userService := userService;
    }

    method GetPostById(id: Guid) returns (r: Result<PostRow, Error>)
      ensures r == FindPost(context.posts, PostIdIs(id))
      ensures r.Failure? <==> !HasPost(context.posts, id)
      ensures r.Success? ==> r.value in context.posts && r.value.id == id
    {
      r := FindPost(context.posts, PostIdIs(id));
    }

    /** Only the "User does not exist" path: the list returned is not modelled. */
    method GetAllUserPosts(authorId: Guid) returns (r: Outcome<Error>)
      ensures r.Fail? <==> !HasUser(context.users, authorId)
      ensures r.Fail? ==> r.error == UserDoesNotExist
    {
      var author := FindUser(context.users, UserIdIs(authorId));
      r := if author.Failure? then Fail(author.error) else Pass;
    }

    method GetPostByTitle(title: string) returns (r: Result<PostRow, Error>)
      ensures r == FindPost(context.posts, TitleIs(title))
      ensures r.Failure? <==> forall p :: p in context.posts ==> p.title != title
      ensures r.Success? ==> r.value in context.posts && r.value.title == title
    {
      r := FindPost(context.posts, TitleIs(title));
    }

    /** Validate, require an Admin author, then insert a row under the fresh id `newId`
        (Guid.NewGuid) and return it. The database refuses a row whose lengths break the
        schema or whose id is taken. */
    method CreatePost(authorId: Guid, title: Option<string>, content: Option<string>, newId: Guid)
      returns (r: Result<Guid, Error>)
      requires context.Valid() && userService.context == context
      modifies context
      ensures context.Valid()
      ensures context.users == old(context.users) && context.commentaries == old(context.commentaries)
      ensures r.Failure? ==> context.posts == old(context.posts)
      ensures ValidatePost(title, content).Fail? ==> r == Failure(ValidatePost(title, content).error)
      ensures ValidatePost(title, content).Pass? && !IsAdmin(old(context.users), authorId) ==>
        r == Failure(NoPostPermission)
      ensures ValidatePost(title, content).Pass? && IsAdmin(old(context.users), authorId) ==>
        var row := PostRow(newId, title.value, content.value, authorId);
        if PostFits(row) && !HasPost(old(context.posts), newId)
        then r == Success(newId) && context.posts == old(context.posts) + [row]
        else r == Failure(ConstraintViolation)
    {
      var v := ValidatePost(title, content);
      if v.Fail? {
        return Failure(v.error);
      }
      var admin := FirstWhere(context.users, AdminWithId(authorId));
      if admin.None? {
        return Failure(NoPostPermission);
      }
      var author := userService.GetById(authorId);
      assert author.Success? by {
        assert admin.value in context.users && admin.value.id == authorId;
      }
      var row := PostRow(newId, title.value, content.value, author.value.id);
      if !PostFits(row) || HasPost(context.posts, newId) {
        return Failure(ConstraintViolation);
      }
      InsertPostKeepsValid(context.Snapshot(), row);
      context.posts := context.posts + [row];
      r := Success(newId);
    }

    /** Sets title and content of the post with that id, unvalidated; the database refuses a
        null or an over-long value on an existing row. */
    method UpdatePost(id: Guid, title: Option<string>, content: Option<string>) returns (r: Result<Guid, Error>)
      requires context.Valid()
      modifies context
      ensures context.Valid()
      ensures context.users == old(context.users) && context.commentaries == old(context.commentaries)
      ensures r.Failure? <==>
        && HasPost(old(context.posts), id)
        && (|| title.None? || content.None?
            || |title.value| > TitleMaxLength || |content.value| > PostContentMaxLength)
      ensures r.Failure? ==> r.error == ConstraintViolation && context.posts == old(context.posts)
      ensures r.Success? ==> r.value == id
      ensures r.Success? && title.Some? && content.Some? ==>
        context.posts == SetPostText(old(context.posts), id, title.value, content.value)
      ensures r.Success? && (title.None? || content.None?) ==> context.posts == old(context.posts)
    {
      if HasPost(context.posts, id) &&
         (title.None? || content.None? || |title.value| > TitleMaxLength || |content.value| > PostContentMaxLength) {
        return Failure(ConstraintViolation);
      }
      if title.Some? && content.Some? {
        var after := SetPostText(context.posts, id, title.value, content.value);
        forall p | p in after ensures PostFits(p) {
          var i :| 0 <= i < |after| && after[i] == p;
          assert context.posts[i] in context.posts;
        }
        ReplacePostsKeepsValid(context.Snapshot(), after);
        context.posts := after;
      }
      r := Success(id);
    }

    method DeletePost(id: Guid) returns (r: Guid)
      requires context.Valid()
      modifies context
      ensures context.Valid()
      ensures r == id
      ensures context.Snapshot() == RemovePost(old(context.Snapshot()), id)
    {
      RemovePostKeepsValid(context.Snapshot(), id);
      var after := RemovePost(context.Snapshot(), id);
      context.posts, context.commentaries := after.posts, after.commentaries;
      r := id;
    }
  }
}
