/** The persisted entities (UserEntity, PostEntity, CommentaryEntity) and the table invariants
    that UserConfiguration, PostConfiguration and CommentaryConfiguration declare to the
    database. A required (`IsRequired`) string column is a `string` field here, never null; an
    optional column is an `Option`. The author and post navigations are held as the foreign
    keys EF Core maps them to. */
module Schema {
  import opened Tables

  newtype Byte = x: int | 0 <= x < 256

  /** A 128-bit `System.Guid`. */
  newtype Guid = x: int | 0 <= x < 0x1_0000_0000_0000_0000_0000_0000_0000_0000

  /** `UserRole`: `User` = 0, `Admin` = 1. */
  datatype UserRole = User | Admin

  /** The value `HasDefaultValue` gives the role column. */
  const DefaultRole: UserRole := User

  const UsernameMaxLength := 30
  const EmailMaxLength := 40
  const TitleMaxLength := 100
  const PostContentMaxLength := 10000
  const CommentaryContentMaxLength := 1500

  datatype UserRow = UserRow(
    id: Guid,
    username: string,
    email: string,
    passwordHash: string,
    role: UserRole,
    profilePicture: Option<seq<Byte>>)

  datatype PostRow = PostRow(id: Guid, title: string, content: string, authorId: Guid)

  datatype CommentaryRow = CommentaryRow(id: Guid, content: string, authorId: Guid, postId: Guid)

  /** The three tables of ChecatsDbContext, as one value. */
  datatype Db = Db(users: seq<UserRow>, posts: seq<PostRow>, commentaries: seq<CommentaryRow>)

  function UserKey(u: UserRow): Guid { u.id }
  function PostKey(p: PostRow): Guid { p.id }
  function CommentaryKey(c: CommentaryRow): Guid { c.id }

  /** The column lengths of a user row fit the declared maxima. */
  predicate UserFits(u: UserRow) {
    |u.username| <= UsernameMaxLength && |u.email| <= EmailMaxLength
  }

  predicate PostFits(p: PostRow) {
    |p.title| <= TitleMaxLength && |p.content| <= PostContentMaxLength
  }

  predicate CommentaryFits(c: CommentaryRow) {
    |c.content| <= CommentaryContentMaxLength
  }

  predicate HasUser(users: seq<UserRow>, id: Guid) {
    exists u :: u in users && u.id == id
  }

  predicate HasPost(posts: seq<PostRow>, id: Guid) {
    exists p :: p in posts && p.id == id
  }

  predicate HasCommentary(commentaries: seq<CommentaryRow>, id: Guid) {
    exists c :: c in commentaries && c.id == id
  }

  /** UserConfiguration: `Id` is the key; username and email are required and fit their lengths.
      The key makes an id name at most one user. */
  ghost predicate UsersValid(users: seq<UserRow>)
    ensures UsersValid(users) ==> forall u, v :: u in users && v in users && u.id == v.id ==> u == v
  {
    && UniqueKeys(users, UserKey)
    && forall u :: u in users ==> UserFits(u)
  }

  /** PostConfiguration: `Id` is the key; title and content are required and fit; every post has
      one author, a user (UserConfiguration's `HasMany(Posts).WithOne(Author)`). */
  ghost predicate PostsValid(posts: seq<PostRow>, users: seq<UserRow>)
    ensures PostsValid(posts, users) ==> forall p, q :: p in posts && q in posts && p.id == q.id ==> p == q
  {
    && UniqueKeys(posts, PostKey)
    && forall p :: p in posts ==> PostFits(p) && HasUser(users, p.authorId)
  }

  /** CommentaryConfiguration: `Id` is the key; content is required and fits; every commentary has
      one author, a user, and belongs to one post (PostConfiguration's
      `HasMany(Commentaries).WithOne(Post)`). */
  ghost predicate CommentariesValid(commentaries: seq<CommentaryRow>, users: seq<UserRow>, posts: seq<PostRow>)
    ensures CommentariesValid(commentaries, users, posts) ==>
      forall c, d :: c in commentaries && d in commentaries && c.id == d.id ==> c == d
  {
    && UniqueKeys(commentaries, CommentaryKey)
    && forall c :: c in commentaries ==>
         CommentaryFits(c) && HasUser(users, c.authorId) && HasPost(posts, c.postId)
  }

  /** Every constraint the three configurations declare holds. References chain: the post a
      commentary belongs to has an author who is a user. */
  ghost predicate Valid(db: Db)
    ensures Valid(db) ==> forall c :: c in db.commentaries ==>
      exists p :: p in db.posts && p.id == c.postId && HasUser(db.users, p.authorId)
  {
    && UsersValid(db.users)
    && PostsValid(db.posts, db.users)
    && CommentariesValid(db.commentaries, db.users, db.posts)
  }

  /** Appending a row under a fresh key keeps the key unique. */
  lemma AppendKeepsKeysUnique<T>(s: seq<T>, x: T, key: T -> Guid)
    requires UniqueKeys(s, key)
    requires forall y :: y in s ==> key(y) != key(x)
    ensures UniqueKeys(s + [x], key)
  {
    var t := s + [x];
    forall i, j | 0 <= i < j < |t| ensures key(t[i]) != key(t[j]) {
      if j == |s| {
        assert t[i] == s[i] && s[i] in s;
      } else {
        assert t[i] == s[i] && t[j] == s[j];
      }
    }
  }

  /** Two user tables with the same ids, row by row, know the same users. */
  lemma SameUserIds(users: seq<UserRow>, r: seq<UserRow>)
    requires |r| == |users|
    requires forall i :: 0 <= i < |r| ==> r[i].id == users[i].id
    ensures forall id :: HasUser(r, id) <==> HasUser(users, id)
  {
    forall id ensures HasUser(r, id) <==> HasUser(users, id) {
      if HasUser(r, id) {
        var u :| u in r && u.id == id;
        var i :| 0 <= i < |r| && r[i] == u;
        assert users[i] in users;
      }
      if HasUser(users, id) {
        var u :| u in users && u.id == id;
        var i :| 0 <= i < |users| && users[i] == u;
        assert r[i] in r;
      }
    }
  }

  /** Rewriting user rows in place, keeping every id and every length bound, keeps the
      database valid. */
  lemma ReplaceUsersKeepsValid(db: Db, r: seq<UserRow>)
    requires Valid(db)
    requires |r| == |db.users|
    requires forall i :: 0 <= i < |r| ==> r[i].id == db.users[i].id
    requires forall u :: u in r ==> UserFits(u)
    ensures Valid(db.(users := r))
  {
    SameUserIds(db.users, r);
    forall i, j | 0 <= i < j < |r| ensures UserKey(r[i]) != UserKey(r[j]) {
      assert UserKey(db.users[i]) != UserKey(db.users[j]);
    }
  }

  /** Rewriting post rows in place, keeping every id, every author and every length bound,
      keeps the database valid. */
  lemma ReplacePostsKeepsValid(db: Db, r: seq<PostRow>)
    requires Valid(db)
    requires |r| == |db.posts|
    requires forall i :: 0 <= i < |r| ==> r[i].id == db.posts[i].id && r[i].authorId == db.posts[i].authorId
    requires forall p :: p in r ==> PostFits(p)
    ensures Valid(db.(posts := r))
  {
    forall i, j | 0 <= i < j < |r| ensures PostKey(r[i]) != PostKey(r[j]) {
      assert PostKey(db.posts[i]) != PostKey(db.posts[j]);
    }
    forall p | p in r ensures HasUser(db.users, p.authorId) {
      var i :| 0 <= i < |r| && r[i] == p;
      assert db.posts[i] in db.posts;
    }
    forall id | HasPost(db.posts, id) ensures HasPost(r, id) {
      var p :| p in db.posts && p.id == id;
      var i :| 0 <= i < |db.posts| && db.posts[i] == p;
      assert r[i] in r;
    }
  }

  /** Rewriting commentary rows in place, keeping every id, author, post and length bound,
      keeps the database valid. */
  lemma ReplaceCommentariesKeepsValid(db: Db, r: seq<CommentaryRow>)
    requires Valid(db)
    requires |r| == |db.commentaries|
    requires forall i :: 0 <= i < |r| ==>
      && r[i].id == db.commentaries[i].id
      && r[i].authorId == db.commentaries[i].authorId
      && r[i].postId == db.commentaries[i].postId
    requires forall c :: c in r ==> CommentaryFits(c)
    ensures Valid(db.(commentaries := r))
  {
    forall i, j | 0 <= i < j < |r| ensures CommentaryKey(r[i]) != CommentaryKey(r[j]) {
      assert CommentaryKey(db.commentaries[i]) != CommentaryKey(db.commentaries[j]);
    }
    forall c | c in r ensures HasUser(db.users, c.authorId) && HasPost(db.posts, c.postId) {
      var i :| 0 <= i < |r| && r[i] == c;
      assert db.commentaries[i] in db.commentaries;
    }
  }
}
