/** ChecatsDbContext: the three tables the services share, updated in place. */
module Store {
  import opened Schema

  class ChecatsDbContext {
    var users: seq<UserRow>
    var posts: seq<PostRow>
    var commentaries: seq<CommentaryRow>

    function Snapshot(): Db
      reads this
    {
      Db(users, posts, commentaries)
    }

    /** The constraints the entity configurations declare hold of the tables. */
    ghost predicate Valid()
      reads this
    {
      Schema.Valid(Snapshot())
    }

    constructor ()
      ensures Valid()
      ensures users == [] && posts == [] && commentaries == []
    {
      users, posts, commentaries := [], [], [];
    }
  }
}
