/** UserService: user lookups, the login flow, registration and the single-row updates and
    deletes of the users table. */
module Users {
  import opened Tables
  import opened Errors
  import opened Schema
  import opened Validation
  import opened Infrastructure
  import opened Store

  function UsernameIs(name: string): UserRow -> bool { (u: UserRow) => u.username == name }
  function EmailIs(email: string): UserRow -> bool { (u: UserRow) => u.email == email }
  function UserIdIs(id: Guid): UserRow -> bool { (u: UserRow) => u.id == id }

  /** `FirstOrDefaultAsync(p) ?? throw new ArgumentException("User does not exist")`. */
  function FindUser(users: seq<UserRow>, p: UserRow -> bool): (r: Result<UserRow, Error>)
    ensures r.Failure? <==> forall u :: u in users ==> !p(u)
    ensures r.Failure? ==> r.error == UserDoesNotExist
    ensures r.Success? ==> r.value in users && p(r.value)
  {
    match FirstWhere(users, p)
    case None => Failure(UserDoesNotExist)
    case Some(u) => Success(u)
  }

  /** What Login answers on a given users table. */
  function LoginOutcome(users: seq<UserRow>, hasher: PasswordHasher, jwt: TokenIssuer,
                        name: string, password: string): (r: Result<string, Error>)
    ensures r == Failure(UserDoesNotExist) <==> forall u :: u in users ==> u.username != name
    ensures r.Success? ==>
      exists u :: u in users && u.username == name && hasher.verify(password, u.passwordHash) && r.value == jwt(u.id)
    ensures r.Failure? && r.error != UserDoesNotExist ==>
      r.error == IncorrectPassword &&
      exists u :: u in users && u.username == name && !hasher.verify(password, u.passwordHash)
  {
    match FindUser(users, UsernameIs(name))
    case Failure(e) => Failure(e)
    case Success(u) =>
      if !hasher.verify(password, u.passwordHash) then Failure(IncorrectPassword)
      else Success(jwt(u.id))
  }

  /** Registering a name no user has, then logging in with the same password, yields a token
      for the new user's id. */
  lemma RegisterThenLogin(users: seq<UserRow>, hasher: PasswordHasher, jwt: TokenIssuer,
                          row: UserRow, password: string, salt: Salt)
    requires Sound(hasher)
    requires forall u :: u in users ==> u.username != row.username
    requires row.passwordHash == hasher.generate(password, salt)
    ensures LoginOutcome(users + [row], hasher, jwt, row.username, password) == Success(jwt(row.id))
  {
    FirstWhereAppendNew(users, row, UsernameIs(row.username));
  }

  /** After the same registration, any other password is refused with "Incorrect password". */
  lemma RegisterThenLoginOtherPassword(users: seq<UserRow>, hasher: PasswordHasher, jwt: TokenIssuer,
                                       row: UserRow, password: string, other: string, salt: Salt)
    requires Discriminating(hasher)
    requires forall u :: u in users ==> u.username != row.username
    requires row.passwordHash == hasher.generate(password, salt)
    requires other != password
    ensures LoginOutcome(users + [row], hasher, jwt, row.username, other) == Failure(IncorrectPassword)
  {
    FirstWhereAppendNew(users, row, UsernameIs(row.username));
  }

  /** Usernames are not unique: in the model's insertion order, a user registered under a name
      already taken is not reached by Login, which keeps answering for the earlier user. */
  lemma RegisterTakenNameIsShadowed(users: seq<UserRow>, hasher: PasswordHasher, jwt: TokenIssuer,
                                    row: UserRow, password: string)
    requires exists u :: u in users && u.username == row.username
    ensures LoginOutcome(users + [row], hasher, jwt, row.username, password) ==
            LoginOutcome(users, hasher, jwt, row.username, password)
  {
    var u :| u in users && u.username == row.username;
    assert UsernameIs(row.username)(u);
    FirstWhereAppend(users, row, UsernameIs(row.username));
  }

  /** A user appended under a fresh id is the one GetById finds. */
  lemma RegisteredUserFoundById(users: seq<UserRow>, row: UserRow)
    requires !HasUser(users, row.id)
    ensures FindUser(users + [row], UserIdIs(row.id)) == Success(row)
  {
    FirstWhereAppendNew(users, row, UserIdIs(row.id));
  }

  /** ExecuteUpdate setting `UserRole` on the rows with that id. */
  function SetRole(users: seq<UserRow>, id: Guid, role: UserRole): (r: seq<UserRow>)
    ensures |r| == |users|
    ensures forall i :: 0 <= i < |users| ==> r[i] == users[i].(role := r[i].role)
    ensures forall i :: 0 <= i < |users| ==>
      r[i].role == if users[i].id == id then role else users[i].role
  {
    UpdateWhere(users, UserIdIs(id), (u: UserRow) => u.(role := role))
  }

  /** ExecuteUpdate setting `ProfilePicture` on the rows with that id. */
  function SetPicture(users: seq<UserRow>, id: Guid, picture: Option<seq<Byte>>): (r: seq<UserRow>)
    ensures |r| == |users|
    ensures forall i :: 0 <= i < |users| ==> r[i] == users[i].(profilePicture := r[i].profilePicture)
    ensures forall i :: 0 <= i < |users| ==>
      r[i].profilePicture == if users[i].id == id then picture else users[i].profilePicture
  {
    UpdateWhere(users, UserIdIs(id), (u: UserRow) => u.(profilePicture := picture))
  }

  /** ExecuteUpdate setting `Email` on the rows with that id. */
  function SetEmail(users: seq<UserRow>, id: Guid, email: string): (r: seq<UserRow>)
    ensures |r| == |users|
    ensures forall i :: 0 <= i < |users| ==> r[i] == users[i].(email := r[i].email)
    ensures forall i :: 0 <= i < |users| ==>
      r[i].email == if users[i].id == id then email else users[i].email
  {
    UpdateWhere(users, UserIdIs(id), (u: UserRow) => u.(email := email))
  }

  /** ExecuteUpdate setting `PasswordHash` on the rows with that id whose stored hash passes
      `guard`. */
  function ReplaceHash(users: seq<UserRow>, id: Guid, guard: string -> bool, newHash: string): (r: seq<UserRow>)
    ensures |r| == |users|
    ensures forall i :: 0 <= i < |users| ==> r[i] == users[i].(passwordHash := r[i].passwordHash)
    ensures forall i :: 0 <= i < |users| ==>
      r[i].passwordHash ==
        if users[i].id == id && guard(users[i].passwordHash) then newHash else users[i].passwordHash
  {
    UpdateWhere(users, (u: UserRow) => u.id == id && guard(u.passwordHash),
                (u: UserRow) => u.(passwordHash := newHash))
  }

  /** ExecuteUpdate overwriting every column but the id of the rows with that id. */
  function Overwrite(users: seq<UserRow>, id: Guid, username: string, email: string, hash: string,
                     role: UserRole, picture: Option<seq<Byte>>): (r: seq<UserRow>)
    ensures |r| == |users|
    ensures forall i :: 0 <= i < |users| ==>
      r[i] == if users[i].id == id then UserRow(id, username, email, hash, role, picture) else users[i]
  {
    UpdateWhere(users, UserIdIs(id),
                (u: UserRow) => UserRow(u.id, username, email, hash, role, picture))
  }

  /** The guard ChangePassword means: the old password verifies against the stored hash. */
  function CorrectGuard(hasher: PasswordHasher, oldPassword: string): string -> bool {
    (stored: string) => hasher.verify(oldPassword, stored)
  }

  /** The guard ChangePassword's filter is written with: VerifyHash(u.PasswordHash, oldPassword),
      which passes the stored hash as the password and the old password as the hash. */
  function AsWrittenGuard(hasher: PasswordHasher, oldPassword: string): string -> bool {
    (stored: string) => hasher.verify(stored, oldPassword)
  }

  /** ChangePassword's update of the users table with the corrected guard. */
  function ChangePasswordRows(users: seq<UserRow>, hasher: PasswordHasher, id: Guid,
                              oldPassword: string, newHash: string): (r: seq<UserRow>)
    ensures |r| == |users|
    ensures forall i :: 0 <= i < |users| ==> r[i] == users[i].(passwordHash := r[i].passwordHash)
    ensures forall i :: 0 <= i < |users| ==>
      r[i].passwordHash ==
        if users[i].id == id && hasher.verify(oldPassword, users[i].passwordHash) then newHash
        else users[i].passwordHash
  {
    ReplaceHash(users, id, CorrectGuard(hasher, oldPassword), newHash)
  }

  /** ChangePassword's update of the users table with the guard as written. */
  function ChangePasswordAsWritten(users: seq<UserRow>, hasher: PasswordHasher, id: Guid,
                                   oldPassword: string, newHash: string): (r: seq<UserRow>)
    ensures |r| == |users|
    ensures forall i :: 0 <= i < |users| ==> r[i] == users[i].(passwordHash := r[i].passwordHash)
    ensures forall i :: 0 <= i < |users| ==>
      r[i].passwordHash ==
        if users[i].id == id && hasher.verify(users[i].passwordHash, oldPassword) then newHash
        else users[i].passwordHash
  {
    ReplaceHash(users, id, AsWrittenGuard(hasher, oldPassword), newHash)
  }

  /** With the corrected guard, a user who gives the right old password can log in with the
      new one afterwards. */
  lemma ChangePasswordThenLogin(users: seq<UserRow>, hasher: PasswordHasher, jwt: TokenIssuer,
                                i: nat, oldPassword: string, newPassword: string, salt: Salt)
    requires Sound(hasher)
    requires i < |users|
    requires hasher.verify(oldPassword, users[i].passwordHash)
    requires forall j :: 0 <= j < i ==> users[j].username != users[i].username
    ensures LoginOutcome(ChangePasswordRows(users, hasher, users[i].id, oldPassword, hasher.generate(newPassword, salt)),
                         hasher, jwt, users[i].username, newPassword)
            == Success(jwt(users[i].id))
  {
    var r := ChangePasswordRows(users, hasher, users[i].id, oldPassword, hasher.generate(newPassword, salt));
    forall j | 0 <= j < i ensures !UsernameIs(users[i].username)(r[j]) {
      assert r[j].username == users[j].username;
    }
    FirstWhereIsFirst(r, UsernameIs(users[i].username), i);
  }

  /** A stand-in hasher: the hash of p is "$" + p. It is sound. */
  function DemoHasher(): PasswordHasher {
    PasswordHasher((p: string, s: Salt) => "$" + p, (p: string, h: string) => h == "$" + p)
  }

  /** With the guard as written, a user who gives the right old password keeps the old hash,
      and cannot log in with the new password. */
  lemma AsWrittenRefusesCorrectPassword(jwt: TokenIssuer)
    ensures Sound(DemoHasher())
    ensures var h := DemoHasher();
      var users := [UserRow(0, "alice", "alice@example.com", h.generate("Secret123", []), User, None)];
      && h.verify("Secret123", users[0].passwordHash)
      && ChangePasswordAsWritten(users, h, 0, "Secret123", h.generate("Changed1", [])) == users
      && LoginOutcome(ChangePasswordAsWritten(users, h, 0, "Secret123", h.generate("Changed1", [])),
                      h, jwt, "alice", "Changed1") == Failure(IncorrectPassword)
      && LoginOutcome(ChangePasswordRows(users, h, 0, "Secret123", h.generate("Changed1", [])),
                      h, jwt, "alice", "Changed1") == Success(jwt(0))
  {
    var h := DemoHasher();
    var users := [UserRow(0, "alice", "alice@example.com", h.generate("Secret123", []), User, None)];
    assert users[0].passwordHash == "$Secret123";
    assert !h.verify(users[0].passwordHash, "Secret123") by {
      assert |"Secret123"| != |"$" + users[0].passwordHash|;
    }
    var asWritten := ChangePasswordAsWritten(users, h, 0, "Secret123", h.generate("Changed1", []));
    assert asWritten == users;
    assert !h.verify("Changed1", users[0].passwordHash) by {
      assert "$Changed1"[1] != "$Secret123"[1];
    }
    FirstWhereIsFirst(users, UsernameIs("alice"), 0);
    ChangePasswordThenLogin(users, h, jwt, 0, "Secret123", "Changed1", []);
  }

  /** A rewrite that leaves usernames and emails alone keeps every row within its lengths. */
  lemma SameColumnsFit(users: seq<UserRow>, r: seq<UserRow>)
    requires UsersValid(users)
    requires |r| == |users|
    requires forall i :: 0 <= i < |r| ==> r[i].username == users[i].username && r[i].email == users[i].email
    ensures forall u :: u in r ==> UserFits(u)
  {
    forall u | u in r ensures UserFits(u) {
      var i :| 0 <= i < |r| && r[i] == u;
      assert users[i] in users;
    }
  }

  function UserIdIsNot(id: Guid): UserRow -> bool { (u: UserRow) => u.id != id }
  function AuthorIsNot(id: Guid): PostRow -> bool { (p: PostRow) => p.authorId != id }
  function SurvivesUserDelete(id: Guid, deadPosts: set<Guid>): CommentaryRow -> bool {
    (c: CommentaryRow) => c.authorId != id && c.postId !in deadPosts
  }

  /** The ids of the posts written by `authorId`. */
  function PostIdsBy(posts: seq<PostRow>, authorId: Guid): set<Guid> {
    set p | p in posts && p.authorId == authorId :: p.id
  }

  /** DeleteUser: the ExecuteDelete of the user, with the cascade the required author
      relationships give: that user's posts, that user's commentaries and the commentaries
      under those posts go too. */
  function RemoveUser(db: Db, id: Guid): (r: Db)
    ensures forall u :: u in r.users <==> u in db.users && u.id != id
    ensures forall p :: p in r.posts <==> p in db.posts && p.authorId != id
    ensures forall c :: c in r.commentaries <==>
      c in db.commentaries && c.authorId != id && c.postId !in PostIdsBy(db.posts, id)
  {
    Db(Filter(db.users, UserIdIsNot(id)),
       Filter(db.posts, AuthorIsNot(id)),
       Filter(db.commentaries, SurvivesUserDelete(id, PostIdsBy(db.posts, id))))
  }

  /** Deleting a user keeps every table constraint, references included. */
  lemma RemoveUserKeepsValid(db: Db, id: Guid)
    requires Valid(db)
    ensures Valid(RemoveUser(db, id))
  {
    var r := RemoveUser(db, id);
    FilterKeepsKeysUnique(db.users, UserIdIsNot(id), UserKey);
    FilterKeepsKeysUnique(db.posts, AuthorIsNot(id), PostKey);
    FilterKeepsKeysUnique(db.commentaries, SurvivesUserDelete(id, PostIdsBy(db.posts, id)), CommentaryKey);
    forall p | p in r.posts ensures HasUser(r.users, p.authorId) {
      var u :| u in db.users && u.id == p.authorId;
      assert u in r.users;
    }
    forall c | c in r.commentaries ensures HasUser(r.users, c.authorId) && HasPost(r.posts, c.postId) {
      var u :| u in db.users && u.id == c.authorId;
      assert u in r.users;
      var p :| p in db.posts && p.id == c.postId;
      assert p in r.posts;
    }
  }

  /** Deleting the same user twice is deleting it once. */
  lemma RemoveUserIdempotent(db: Db, id: Guid)
    ensures RemoveUser(RemoveUser(db, id), id) == RemoveUser(db, id)
  {
    var r := RemoveUser(db, id);
    FilterIdempotent(db.users, UserIdIsNot(id));
    FilterIdempotent(db.posts, AuthorIsNot(id));
    assert PostIdsBy(r.posts, id) == {};
    FilterKeepsAll(r.commentaries, SurvivesUserDelete(id, {}));
  }

  /** Deleting an id no user has changes nothing. */
  lemma RemoveAbsentUser(db: Db, id: Guid)
    requires Valid(db)
    requires !HasUser(db.users, id)
    ensures RemoveUser(db, id) == db
  {
    FilterKeepsAll(db.users, UserIdIsNot(id));
    FilterKeepsAll(db.posts, AuthorIsNot(id));
    assert PostIdsBy(db.posts, id) == {};
    FilterKeepsAll(db.commentaries, SurvivesUserDelete(id, {}));
  }

  class UserService {
    const context: ChecatsDbContext
    const hasher: PasswordHasher
    const jwt: TokenIssuer
    /** The `System.Net.Mail.MailAddress` parser's verdict on a string. */
    const parsesAsMail: string -> bool

    constructor (jwt: TokenIssuer, hasher: PasswordHasher, context: ChecatsDbContext,
                 parsesAsMail: string -> bool)
      ensures this.jwt == jwt && this.hasher == hasher && this.context == context
      ensures this.parsesAsMail == parsesAsMail
    {
      this.jwt := jwt;
      this.hasher := hasher;
      this.context := context;
      this.parsesAsMail := parsesAsMail;
    }

    method Login(name: string, password: string) returns (r: Result<string, Error>)
      ensures r == LoginOutcome(context.users, hasher, jwt, name, password)
    {
      var found := GetByName(name);
      if found.Failure? {
        return Failure(found.error);
      }
      var user := found.value;
      if !hasher.verify(password, user.passwordHash) {
        return Failure(IncorrectPassword);
      }
      r := Success(jwt(user.id));
    }

    method GetByName(name: string) returns (r: Result<UserRow, Error>)
      ensures r == FindUser(context.users, UsernameIs(name))
      ensures r.Failure? <==> forall u :: u in context.users ==> u.username != name
      ensures r.Success? ==> r.value in context.users && r.value.username == name
    {
      r := FindUser(context.users, UsernameIs(name));
    }

    method GetById(id: Guid) returns (r: Result<UserRow, Error>)
      ensures r == FindUser(context.users, UserIdIs(id))
      ensures r.Failure? <==> !HasUser(context.users, id)
      ensures r.Success? ==> r.value in context.users && r.value.id == id
    {
      r := FindUser(context.users, UserIdIs(id));
    }

    method GetByEmail(email: string) returns (r: Result<UserRow, Error>)
      ensures r == FindUser(context.users, EmailIs(email))
      ensures r.Failure? <==> forall u :: u in context.users ==> u.email != email
      ensures r.Success? ==> r.value in context.users && r.value.email == email
    {
      r := FindUser(context.users, EmailIs(email));
    }

    /** Validate, hash, insert a row under the fresh id `newId` (Guid.NewGuid) and return it.
        The database refuses a row whose lengths break the schema or whose id is taken. */
    method Register(username: Option<string>, email: Option<string>, password: Option<string>,
                    newId: Guid, salt: Salt, role: UserRole := DefaultRole)
      returns (r: Result<Guid, Error>)
      requires context.Valid()
      modifies context
      ensures context.Valid()
      ensures context.posts == old(context.posts) && context.commentaries == old(context.commentaries)
      ensures r.Failure? ==> context.users == old(context.users)
      ensures ValidateUser(username, email, password, parsesAsMail).Fail? ==>
        r == Failure(ValidateUser(username, email, password, parsesAsMail).error)
      ensures ValidateUser(username, email, password, parsesAsMail).Pass? ==>
        var row := UserRow(newId, username.value, email.value, hasher.generate(password.value, salt), role, None);
        if UserFits(row) && !HasUser(old(context.users), newId)
        then r == Success(newId) && context.users == old(context.users) + [row]
        else r == Failure(ConstraintViolation)
    {
      var v := ValidateUser(username, email, password, parsesAsMail);
      if v.Fail? {
        return Failure(v.error);
      }
      var passwordHash := hasher.generate(password.value, salt);
      var row := UserRow(newId, username.value, email.value, passwordHash, role, None);
      if !UserFits(row) || HasUser(context.users, newId) {
        return Failure(ConstraintViolation);
      }
      AppendKeepsKeysUnique(context.users, row, UserKey);
      context.users := context.users + [row];
      r := Success(newId);
    }

    method DeleteUser(id: Guid) returns (r: Guid)
      requires context.Valid()
      modifies context
      ensures context.Valid()
      ensures r == id
      ensures context.Snapshot() == RemoveUser(old(context.Snapshot()), id)
    {
      RemoveUserKeepsValid(context.Snapshot(), id);
      var after := RemoveUser(context.Snapshot(), id);
      context.users, context.posts, context.commentaries := after.users, after.posts, after.commentaries;
      r := id;
    }

    method ChangeUserRole(id: Guid, role: UserRole) returns (r: Guid)
      requires context.Valid()
      modifies context
      ensures context.Valid()
      ensures r == id
      ensures context.users == SetRole(old(context.users), id, role)
      ensures context.posts == old(context.posts) && context.commentaries == old(context.commentaries)
    {
      SameColumnsFit(context.users, SetRole(context.users, id, role));
      ReplaceUsersKeepsValid(context.Snapshot(), SetRole(context.users, id, role));
      context.users := SetRole(context.users, id, role);
      r := id;
    }

    method ChangeProfilePicture(id: Guid, profilePicture: Option<seq<Byte>>) returns (r: Guid)
      requires context.Valid()
      modifies context
      ensures context.Valid()
      ensures r == id
      ensures context.users == SetPicture(old(context.users), id, profilePicture)
      ensures context.posts == old(context.posts) && context.commentaries == old(context.commentaries)
    {
      SameColumnsFit(context.users, SetPicture(context.users, id, profilePicture));
      ReplaceUsersKeepsValid(context.Snapshot(), SetPicture(context.users, id, profilePicture));
      context.users := SetPicture(context.users, id, profilePicture);
      r := id;
    }

    /** Replaces the hash of the user with that id when the filter as written,
        `VerifyHash(u.PasswordHash, oldPassword)`, holds; otherwise changes nothing and still
        returns the id. `ChangePasswordRows` is the update the filter evidently means. */
    method ChangePassword(id: Guid, oldPassword: Option<string>, newPassword: Option<string>, salt: Salt)
      returns (r: Result<Guid, Error>)
      requires context.Valid()
      modifies context
      ensures context.Valid()
      ensures context.posts == old(context.posts) && context.commentaries == old(context.commentaries)
      ensures oldPassword.None? || newPassword.None? ==>
        r == Failure(PasswordsNull) && context.users == old(context.users)
      ensures oldPassword.Some? && newPassword.Some? ==>
        && r == Success(id)
        && context.users == ChangePasswordAsWritten(old(context.users), hasher, id, oldPassword.value,
                                                    hasher.generate(newPassword.value, salt))
    {
      if oldPassword.None? || newPassword.None? {
        return Failure(PasswordsNull);
      }
      var newHash := hasher.generate(newPassword.value, salt);
      var after := ChangePasswordAsWritten(context.users, hasher, id, oldPassword.value, newHash);
      SameColumnsFit(context.users, after);
      ReplaceUsersKeepsValid(context.Snapshot(), after);
      context.users := after;
      r := Success(id);
    }

    /** Sets the email of the user with that id, unchecked; the database refuses a null or an
        over-long email on an existing row. */
    method ChangeEmail(id: Guid, email: Option<string>) returns (r: Result<Guid, Error>)
      requires context.Valid()
      modifies context
      ensures context.Valid()
      ensures context.posts == old(context.posts) && context.commentaries == old(context.commentaries)
      ensures r.Failure? <==>
        HasUser(old(context.users), id) && (email.None? || |email.value| > EmailMaxLength)
      ensures r.Failure? ==> r.error == ConstraintViolation && context.users == old(context.users)
      ensures r.Success? ==> r.value == id
      ensures r.Success? && email.Some? ==> context.users == SetEmail(old(context.users), id, email.value)
      ensures r.Success? && email.None? ==> context.users == old(context.users)
    {
      if HasUser(context.users, id) && (email.None? || |email.value| > EmailMaxLength) {
        return Failure(ConstraintViolation);
      }
      if email.Some? {
        var after := SetEmail(context.users, id, email.value);
        forall u | u in after ensures UserFits(u) {
          var i :| 0 <= i < |after| && after[i] == u;
          assert context.users[i] in context.users;
        }
        ReplaceUsersKeepsValid(context.Snapshot(), after);
        context.users := after;
      }
      r := Success(id);
    }

    /** Overwrites username, email, hash, role and picture of the user with that id, with no
        validation; an omitted role or picture resets it to User or null. */
    method UpdateUser(id: Guid, username: Option<string>, email: Option<string>, password: Option<string>,
                      salt: Salt, role: UserRole := User, profilePicture: Option<seq<Byte>> := None)
      returns (r: Result<Guid, Error>)
      requires context.Valid()
      modifies context
      ensures context.Valid()
      ensures context.posts == old(context.posts) && context.commentaries == old(context.commentaries)
      ensures r.Failure? ==> context.users == old(context.users)
      ensures username.None? || email.None? ==> r == Failure(UsernameOrEmailNull)
      ensures username.Some? && email.Some? && password.None? ==> r == Failure(PasswordNull)
      ensures username.Some? && email.Some? && password.Some? ==>
        var row := UserRow(id, username.value, email.value, hasher.generate(password.value, salt), role, profilePicture);
        if HasUser(old(context.users), id) && !UserFits(row)
        then r == Failure(ConstraintViolation)
        else r == Success(id) &&
             context.users == Overwrite(old(context.users), id, username.value, email.value,
                                        hasher.generate(password.value, salt), role, profilePicture)
    {
      if username.None? || email.None? {
        return Failure(UsernameOrEmailNull);
      }
      if password.None? {
        return Failure(PasswordNull);
      }
      var hash := hasher.generate(password.value, salt);
      var row := UserRow(id, username.value, email.value, hash, role, profilePicture);
      if HasUser(context.users, id) && !UserFits(row) {
        return Failure(ConstraintViolation);
      }
      var after := Overwrite(context.users, id, username.value, email.value, hash, role, profilePicture);
      forall u | u in after ensures UserFits(u) {
        var i :| 0 <= i < |after| && after[i] == u;
        assert context.users[i] in context.users;
      }
      ReplaceUsersKeepsValid(context.Snapshot(), after);
      context.users := after;
      r := Success(id);
    }
  }
}
