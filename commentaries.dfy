/** CommentaryService: commentary lookups, creation by any existing user on any existing post,
    and the update and delete of one commentary. */
module Commentaries {
  import opened Tables
  import opened Errors
  import opened Schema
  import opened Validation
  import opened Store
  import opened Users
  import opened Posts

  function CommentaryIdIs(id: Guid): CommentaryRow -> bool { (c: CommentaryRow) => c.id == id }
  function CommentaryIdIsNot(id: Guid): CommentaryRow -> bool { (c: CommentaryRow) => c.id != id }

  /** `FirstOrDefaultAsync(c => c.Id == id) ?? throw new ArgumentException("Commentary does not exist")`. */
  function FindCommentary(commentaries: seq<CommentaryRow>, id: Guid): (r: Result<CommentaryRow, Error>)
    ensures r.Failure? <==> !HasCommentary(commentaries, id)
    ensures r.Failure? ==> r.error == CommentaryDoesNotExist
    ensures r.Success? ==> r.value in commentaries && r.value.id == id
  {
    match FirstWhere(commentaries, CommentaryIdIs(id))
    case None => Failure(CommentaryDoesNotExist)
    case Some(c) => Success(c)
  }

  /** A commentary appended under a fresh id is the one GetCommentaryById finds. */
  lemma CreatedCommentaryFoundById(commentaries: seq<CommentaryRow>, row: CommentaryRow)
    requires !HasCommentary(commentaries, row.id)
    ensures FindCommentary(commentaries + [row], row.id) == Success(row)
  {
    FirstWhereAppendNew(commentaries, row, CommentaryIdIs(row.id));
  }

  /** Inserting a fitting commentary under a fresh id, by an existing author on an existing
      post, keeps the database valid. */
  lemma InsertCommentaryKeepsValid(db: Db, row: CommentaryRow)
    requires Valid(db)
    requires CommentaryFits(row) && !HasCommentary(db.commentaries, row.id)
    requires HasUser(db.users, row.authorId) && HasPost(db.posts, row.postId)
    ensures Valid(db.(commentaries := db.commentaries + [row]))
  {
    AppendKeepsKeysUnique(db.commentaries, row, CommentaryKey);
  }

  /** ExecuteUpdate setting `Content` on the rows with that id. */
  function SetContent(commentaries: seq<CommentaryRow>, id: Guid, content: string): (r: seq<CommentaryRow>)
    ensures |r| == |commentaries|
    ensures forall i :: 0 <= i < |commentaries| ==> r[i] == commentaries[i].(content := r[i].content)
    ensures forall i :: 0 <= i < |commentaries| ==>
      r[i].content == if commentaries[i].id == id then content else commentaries[i].content
  {
    UpdateWhere(commentaries, CommentaryIdIs(id), (c: CommentaryRow) => c.(content := content))
  }

  /** DeleteCommentary: the ExecuteDelete of the commentary with that id. */
  function RemoveCommentary(commentaries: seq<CommentaryRow>, id: Guid): (r: seq<CommentaryRow>)
    ensures forall c :: c in r <==> c in commentaries && c.id != id
  {
    Filter(commentaries, CommentaryIdIsNot(id))
  }

  /** Deleting a commentary keeps every table constraint. */
  lemma RemoveCommentaryKeepsValid(db: Db, id: Guid)
    requires Valid(db)
    ensures Valid(db.(commentaries := RemoveCommentary(db.commentaries, id)))
  {
    FilterKeepsKeysUnique(db.commentaries, CommentaryIdIsNot(id), CommentaryKey);
  }

  /** Deleting the same commentary twice is deleting it once. */
  lemma RemoveCommentaryIdempotent(commentaries: seq<CommentaryRow>, id: Guid)
    ensures RemoveCommentary(RemoveCommentary(commentaries, id), id) == RemoveCommentary(commentaries, id)
  {
    FilterIdempotent(commentaries, CommentaryIdIsNot(id));
  }

  /** Deleting an id no commentary has changes nothing. */
  lemma RemoveAbsentCommentary(commentaries: seq<CommentaryRow>, id: Guid)
    requires !HasCommentary(commentaries, id)
    ensures RemoveCommentary(commentaries, id) == commentaries
  {
    FilterKeepsAll(commentaries, CommentaryIdIsNot(id));
  }

  class CommentaryService {
    const context: ChecatsDbContext
    const userService: UserService
    const postService: PostService

    constructor (context: ChecatsDbContext, userService: UserService, postService: PostService)
      ensures this.context == context && this.userService == userService && this.postService == postService
    {
      this.context := context;
      this.userService := userService;
      this.postService := postService;
    }

    method GetCommentaryById(id: Guid) returns (r: Result<CommentaryRow, Error>)
      ensures r == FindCommentary(context.commentaries, id)
    {
      r := FindCommentary(context.commentaries, id);
    }

    /** Only the "User does not exist" path: the list returned is not modelled. */
    method GetAllUserCommentaries(authorId: Guid) returns (r: Outcome<Error>)
      ensures r.Fail? <==> !HasUser(context.users, authorId)
      ensures r.Fail? ==> r.error == UserDoesNotExist
    {
      var author := FindUser(context.users, UserIdIs(authorId));
      r := if author.Failure? then Fail(author.error) else Pass;
    }

    /** Only the "Post does not exist" path: the list returned is not modelled. */
    method GetAllPostCommentaries(postId: Guid) returns (r: Outcome<Error>)
      ensures r.Fail? <==> !HasPost(context.posts, postId)
      ensures r.Fail? ==> r.error == PostDoesNotExist
    {
      var post := FindPost(context.posts, PostIdIs(postId));
      r := if post.Failure? then Fail(post.error) else Pass;
    }

    /** Validate the content, look up the author, then the post, then insert a row under the
        fresh id `newId` (Guid.NewGuid) and return it. No role is required. The database
        refuses an over-long content or a taken id. */
    method CreateCommentary(authorId: Guid, postId: Guid, content: Option<string>, newId: Guid)
      returns (r: Result<Guid, Error>)
      requires context.Valid() && userService.context == context && postService.context == context
      modifies context
      ensures context.Valid()
      ensures context.users == old(context.users) && context.posts == old(context.posts)
      ensures r.Failure? ==> context.commentaries == old(context.commentaries)
      ensures ValidateCommentary(content).Fail? ==> r == Failure(CommentaryNullOrEmpty)
      ensures ValidateCommentary(content).Pass? && !HasUser(old(context.users), authorId) ==>
        r == Failure(UserDoesNotExist)
      ensures ValidateCommentary(content).Pass? && HasUser(old(context.users), authorId) &&
              !HasPost(old(context.posts), postId) ==>
        r == Failure(PostDoesNotExist)
      ensures ValidateCommentary(content).Pass? && HasUser(old(context.users), authorId) &&
              HasPost(old(context.posts), postId) ==>
        var row := CommentaryRow(newId, content.value, authorId, postId);
        if CommentaryFits(row) && !HasCommentary(old(context.commentaries), newId)
        then r == Success(newId) && context.commentaries == old(context.commentaries) + [row]
        else r == Failure(ConstraintViolation)
    {
      var v := ValidateCommentary(content);
      if v.Fail? {
        return Failure(v.error);
      }
      var author := userService.GetById(authorId);
      if author.Failure? {
        return Failure(author.error);
      }
      var post := postService.GetPostById(postId);
      if post.Failure? {
        return Failure(post.error);
      }
      var row := CommentaryRow(newId, content.value, author.value.id, post.value.id);
      if !CommentaryFits(row) || HasCommentary(context.commentaries, newId) {
        return Failure(ConstraintViolation);
      }
      InsertCommentaryKeepsValid(context.Snapshot(), row);
      context.commentaries := context.commentaries + [row];
      r := Success(newId);
    }

    method DeleteCommentary(id: Guid) returns (r: Guid)
      requires context.Valid()
      modifies context
      ensures context.Valid()
      ensures r == id
      ensures context.users == old(context.users) && context.posts == old(context.posts)
      ensures context.commentaries == RemoveCommentary(old(context.commentaries), id)
    {
      RemoveCommentaryKeepsValid(context.Snapshot(), id);
      context.commentaries := RemoveCommentary(context.commentaries, id);
      r := id;
    }

    /** Sets the content of the commentary with that id, unvalidated; the database refuses a
        null or an over-long content on an existing row. */
    method CommentaryUpdate(id: Guid, content: Option<string>) returns (r: Result<Guid, Error>)
      requires context.Valid()
      modifies context
      ensures context.Valid()
      ensures context.users == old(context.users) && context.posts == old(context.posts)
      ensures r.Failure? <==>
        HasCommentary(old(context.commentaries), id) &&
        (content.None? || |content.value| > CommentaryContentMaxLength)
      ensures r.Failure? ==> r.error == ConstraintViolation && context.commentaries == old(context.commentaries)
      ensures r.Success? ==> r.value == id
      ensures r.Success? && content.Some? ==>
        context.commentaries == SetContent(old(context.commentaries), id, content.value)
      ensures r.Success? && content.None? ==> context.commentaries == old(context.commentaries)
    {
      if HasCommentary(context.commentaries, id) &&
         (content.None? || |content.value| > CommentaryContentMaxLength) {
        return Failure(ConstraintViolation);
      }
      if content.Some? {
        var after := SetContent(context.commentaries, id, content.value);
        forall c | c in after ensures CommentaryFits(c) {
          var i :| 0 <= i < |after| && after[i] == c;
          assert context.commentaries[i] in context.commentaries;
        }
        ReplaceCommentariesKeepsValid(context.Snapshot(), after);
        context.commentaries := after;
      }
      r := Success(id);
    }
  }
}
