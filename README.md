# Checats application layer in Dafny

Checats is a small blog backend. It has users, posts written by admins, and commentaries that any user
can leave under a post. This project models its application layer, the three services `UserService`,
`PostService` and `CommentaryService`, as a state machine over the three tables of
`ChecatsDbContext`. It also models the validators of the domain models `User`, `Post` and
`Commentary`, and the table constraints that the three Entity Framework configurations declare.

Layout:

- `tables.dfy` (`Tables`): the query shapes the services use, stated over a table held as a sequence.
  `FirstOrDefaultAsync` returns some matching row; usernames, emails and titles are not unique, so which
  one matters. The model picks the first match in table order, with rows kept in insertion order (see
  "Left out"). `Where(..).ExecuteDeleteAsync()` keeps the non-matching rows. `Where(..).ExecuteUpdateAsync(..)`
  rewrites the matching rows.
- `schema.dfy` (`Schema`): the rows of the three entities and the invariant `Valid` of the whole
  database. It covers primary keys, the length bounds 30/40, 100/10000 and 1500, required columns, and
  every post and commentary referring to an existing user (and post).
- `errors.dfy` (`Errors`): one constructor per exception the core throws, with its .NET class and message.
- `validation.dfy` (`Validation`): `User.Validate`, `Post.Validate` and `Commentary.Validate`.
- `infrastructure.dfy` (`Infrastructure`): the BCrypt hasher and the JWT provider as opaque function values.
- `store.dfy` (`Store`): the `ChecatsDbContext` class, whose three table fields the services update in place.
- `users.dfy`, `posts.dfy`, `commentaries.dfy`: one service class each, with the pure table functions
  and lemmas that specify it.

Modelling choices:

- A nullable C# `string` is an `Option<string>` where the code null-checks it, or where it flows
  unchecked into a NOT NULL column. `None` is `null`.
- A thrown exception is a `Failure`/`Fail` result that changes no table.
- The database enforces the declared schema. A write that would break a length bound, a NOT NULL
  column or the primary key fails with `ConstraintViolation` and leaves the tables as they were. An
  `ExecuteUpdate` whose filter matches no row touches nothing and so never fails. Together these make
  `ChecatsDbContext.Valid()` an invariant of every service method.
- `Guid.NewGuid()` is the parameter `newId`. The BCrypt salt is the parameter `salt`, so that
  `GenerateHash(p)` is `hasher.generate(p, salt)`.
- `JwtProvider.GenerateToken(user)` is a function of the user's id: its only claim is `userId`.
- The `System.Net.Mail.MailAddress` parser is the function value `parsesAsMail`.
- Deletes cascade. The `Author` and `Post` navigations of the entities are declared non-nullable
  under nullable reference types, so EF Core makes both relationships required and gives them
  cascade delete by convention. No configuration overrides that.
- Deleting a user therefore removes that user's posts, that user's commentaries and the commentaries
  under those posts. Deleting a post removes its commentaries.

## Model

| member | source | states |
|---|---|---|
| Tables.FirstWhere | Checats.Application/Services/UserService.cs:46-50 | `FirstOrDefault`: `None` exactly when no row matches; otherwise a matching row of the table |
| Tables.FirstWhereIsFirst | Checats.Application/Services/UserService.cs:49 | in the model's table order, the row returned is the matching row with the lowest index |
| Tables.FirstWhereAppend | Checats.Application/Services/UserService.cs:49 | in the model's table order, inserting a row does not change a lookup that already had a match |
| Tables.FirstWhereAppendNew | Checats.Application/Services/UserService.cs:65 | a row inserted under a key no row had is the one the lookup then finds |
| Tables.Filter | Checats.Application/Services/UserService.cs:137-139 | `ExecuteDelete`: a row survives exactly when it is in the table and kept; the table never grows |
| Tables.FilterKeepsAll | Checats.Application/Services/PostService.cs:124-126 | a delete whose filter matches no row returns the table unchanged |
| Tables.FilterIdempotent | Checats.Application/Services/CommentaryService.cs:99-101 | the same delete run twice equals it run once |
| Tables.FilterKeepsKeysUnique | Checats.Persistence/Configurations/UserConfiguration.cs:15-16 | a delete keeps the primary key unique |
| Tables.UpdateWhere | Checats.Application/Services/UserService.cs:152-156 | `ExecuteUpdate`: same length; matching rows rewritten, all others unchanged |
| Tables.UpdateWhereKeepsKeysUnique | Checats.Persistence/Configurations/PostConfiguration.cs:14 | an update that keeps each row's key keeps the primary key unique |
| Tables.UpdateWhereNoMatch | Checats.Application/Services/PostService.cs:106-111 | an update whose filter matches no row changes nothing |
| Schema.UsersValid | Checats.Persistence/Configurations/UserConfiguration.cs:13-43 | the users table's constraints: unique id, username within 30 and email within 40; hence an id names at most one user |
| Schema.PostsValid | Checats.Persistence/Configurations/PostConfiguration.cs:12-33 | the posts table's constraints: unique id, title within 100, content within 10000, author an existing user; hence an id names at most one post |
| Schema.CommentariesValid | Checats.Persistence/Configurations/CommentaryConfiguration.cs:11-23 | the commentaries table's constraints: unique id, content within 1500, author an existing user, post an existing post; hence an id names at most one commentary |
| Schema.Valid | Checats.Persistence/ChecatsDbContext.cs:13-20 | all three configurations hold together; hence the post under any commentary has an author who is an existing user |
| Schema.AppendKeepsKeysUnique | Checats.Persistence/Configurations/CommentaryConfiguration.cs:13 | inserting a row under a fresh id keeps the primary key unique |
| Schema.SameUserIds | Checats.Persistence/Configurations/UserConfiguration.cs:33-39 | rewriting user rows without changing ids leaves the set of user ids, which posts and commentaries refer to, unchanged |
| Schema.ReplaceUsersKeepsValid | Checats.Persistence/Configurations/UserConfiguration.cs:13-43 | rewriting user rows in place, keeping ids and the 30/40 bounds, keeps every table constraint |
| Schema.ReplacePostsKeepsValid | Checats.Persistence/Configurations/PostConfiguration.cs:12-33 | rewriting post rows in place, keeping ids, authors and the 100/10000 bounds, keeps every table constraint |
| Schema.ReplaceCommentariesKeepsValid | Checats.Persistence/Configurations/CommentaryConfiguration.cs:11-23 | rewriting commentary rows in place, keeping ids, authors, posts and the 1500 bound, keeps every table constraint |
| Store.ChecatsDbContext.constructor | Checats.Persistence/ChecatsDbContext.cs:11-25 | the empty database (three empty tables) satisfies every constraint |
| Errors.Error.Exception | Checats.Application/Services/UserService.cs:184-235 | the exception class of each throw site (User.cs:23/26/29, Post.cs:19/22, Commentary.cs:18, UserService.cs:31/50/187/232/235, PostService.cs:34/78, CommentaryService.cs:34): DatabaseException only for a refused write, ArgumentNullException exactly for the two null checks of ChangePassword and UpdateUser, AggregateException exactly for the later emptiness checks, FormatException for a bad address |
| Errors.Error.Message | Checats.Application/Services/UserService.cs:50 | the message of each throw site; "User does not exist" names exactly the missing-user error, and "Password can not be null" is shared by the ChangePassword and UpdateUser null checks |
| Errors.ThrowSitesDistinguishable | Checats.Application/Services/UserService.cs:187-235 | the exception class and the message together tell every error kind apart; the two null-password checks share a message but not a class |
| Validation.ValidateUser | ChecatsAPI.Domain/Models/User.cs:20-40 | passes iff username, email and password are non-null and non-empty and the email parses as an address; each error iff its check is the first to fail, in the order username, email, password, address |
| Validation.ValidatePost | ChecatsAPI.Domain/Models/Post.cs:16-23 | passes iff title and content are non-null and non-empty; the title error wins when both fail |
| Validation.ValidateCommentary | ChecatsAPI.Domain/Models/Commentary.cs:15-19 | passes iff the content is non-null and has at least one character (whitespace included, any length) |
| Validation.ValidationExceptionClasses | ChecatsAPI.Domain/Models/User.cs:22-29 | the first check throws ArgumentException, the later emptiness checks of User and Post throw AggregateException, and a bad address throws FormatException |
| Users.FindUser | Checats.Application/Services/UserService.cs:61-68 | fails with "User does not exist" iff no user satisfies the lookup; otherwise returns a user of the table that satisfies it |
| Users.LoginOutcome | Checats.Application/Services/UserService.cs:26-35 | "User does not exist" iff no user has the name; "Incorrect password" only when a user with the name exists whose hash does not verify the password; otherwise the token of such a user |
| Users.RegisterThenLogin | Checats.Application/Services/UserService.cs:109-128 | after registering a fresh name with a sound hasher, logging in with the same password yields the token for the new id |
| Users.RegisterThenLoginOtherPassword | Checats.Application/Services/UserService.cs:28-31 | after the same registration, any other password fails with "Incorrect password" |
| Users.RegisterTakenNameIsShadowed | Checats.Application/Services/UserService.cs:46-49 | usernames are not unique: in the model's insertion order, a user registered under a taken name is not reached by Login, which keeps answering for the earlier user |
| Users.RegisteredUserFoundById | Checats.Application/Services/UserService.cs:61-68 | a user inserted under a fresh id is the one GetById finds |
| Users.SetRole | Checats.Application/Services/UserService.cs:150-159 | only the role of the rows with that id changes; every other field and row is unchanged |
| Users.SetPicture | Checats.Application/Services/UserService.cs:167-176 | only the picture of the rows with that id changes; every other field and row is unchanged |
| Users.SetEmail | Checats.Application/Services/UserService.cs:205-214 | only the email of the rows with that id changes; every other field and row is unchanged |
| Users.ReplaceHash | Checats.Application/Services/UserService.cs:189-194 | only the hash of the rows with that id whose stored hash passes the guard changes |
| Users.Overwrite | Checats.Application/Services/UserService.cs:237-244 | the rows with that id become the given username, email, hash, role and picture under the same id; all other rows are unchanged |
| Users.ChangePasswordRows | Checats.Application/Services/UserService.cs:184-197 | corrected guard: the hash is replaced exactly on the row with that id whose stored hash verifies the old password |
| Users.ChangePasswordAsWritten | Checats.Application/Services/UserService.cs:191-192 | guard as written: the hash is replaced exactly on the row with that id where `verify(storedHash, oldPassword)` holds |
| Users.ChangePasswordThenLogin | Checats.Application/Services/UserService.cs:184-197 | with the corrected guard, a user who gives the right old password can then log in with the new one |
| Users.AsWrittenRefusesCorrectPassword | Checats.Application/Services/UserService.cs:192 | for a sound hasher and a user giving the right old password, the filter as written changes nothing and the new password is refused at login, while the corrected guard lets it in |
| Users.SameColumnsFit | Checats.Persistence/Configurations/UserConfiguration.cs:18-26 | a rewrite keeping usernames and emails keeps every row within 30/40 |
| Users.RemoveUser | Checats.Application/Services/UserService.cs:135-142 | the user with that id is gone, as are that user's posts, that user's commentaries and the commentaries under those posts; nothing else is removed |
| Users.RemoveUserKeepsValid | Checats.Persistence/Configurations/UserConfiguration.cs:33-39 | deleting a user leaves no post or commentary referring to a missing user or post |
| Users.RemoveUserIdempotent | Checats.Application/Services/UserService.cs:135-142 | deleting the same user twice equals deleting it once |
| Users.RemoveAbsentUser | Checats.Application/Services/UserService.cs:137-139 | deleting an id no user has changes no table |
| Users.UserService.Login | Checats.Application/Services/UserService.cs:26-35 | returns exactly `LoginOutcome` on the current users table |
| Users.UserService.GetByName | Checats.Application/Services/UserService.cs:44-53 | a user with that name, or "User does not exist" iff there is none |
| Users.UserService.GetById | Checats.Application/Services/UserService.cs:61-69 | the user with that id, or "User does not exist" iff there is none |
| Users.UserService.GetByEmail | Checats.Application/Services/UserService.cs:77-86 | a user with that email, or "User does not exist" iff there is none |
| Users.UserService.Register | Checats.Application/Services/UserService.cs:109-128 | a validation failure returns that error and stores nothing; otherwise exactly one row (fresh id, given name and email, generated hash, role, no picture) is appended and its id returned, or the database refuses it; other tables untouched; constraints kept |
| Users.UserService.DeleteUser | Checats.Application/Services/UserService.cs:135-142 | returns the id; the tables become `RemoveUser` of the old ones; constraints kept |
| Users.UserService.ChangeUserRole | Checats.Application/Services/UserService.cs:150-159 | returns the id; the users table becomes `SetRole` of the old one; posts and commentaries untouched |
| Users.UserService.ChangeProfilePicture | Checats.Application/Services/UserService.cs:167-176 | returns the id; the users table becomes `SetPicture` of the old one; posts and commentaries untouched |
| Users.UserService.ChangePassword | Checats.Application/Services/UserService.cs:184-197 | a null password gives ArgumentNullException and changes nothing; otherwise returns the id and the users table becomes `ChangePasswordAsWritten` with the newly generated hash: the swapped-argument filter decides which row changes |
| Users.UserService.ChangeEmail | Checats.Application/Services/UserService.cs:205-214 | no validation; the database refuses a null or over-40 email iff the user exists; otherwise returns the id and the users table becomes `SetEmail` |
| Users.UserService.UpdateUser | Checats.Application/Services/UserService.cs:228-247 | null username or email gives ArgumentNullException, then a null password ArgumentException; otherwise the row is overwritten (role and picture default to User and null) and the id returned, unless the existing row would break the 30/40 bounds |
| Posts.FindPost | Checats.Application/Services/PostService.cs:29-35 | fails with "Post does not exist" iff no post satisfies the lookup; otherwise a post of the table that satisfies it |
| Posts.CreatedPostFoundById | Checats.Application/Services/PostService.cs:81-94 | a post inserted under a fresh id is the one GetPostById finds |
| Posts.InsertPostKeepsValid | Checats.Persistence/Configurations/PostConfiguration.cs:12-33 | inserting a fitting post with a fresh id and an existing author keeps every table constraint |
| Posts.SetPostText | Checats.Application/Services/PostService.cs:104-114 | only the title and content of the rows with that id change; every other field and row is unchanged |
| Posts.RemovePost | Checats.Application/Services/PostService.cs:122-129 | the post with that id and the commentaries under it are gone; nothing else is removed |
| Posts.RemovePostKeepsValid | Checats.Persistence/Configurations/PostConfiguration.cs:30-32 | deleting a post leaves no commentary under a missing post |
| Posts.RemovePostIdempotent | Checats.Application/Services/PostService.cs:122-129 | deleting the same post twice equals deleting it once |
| Posts.RemoveAbsentPost | Checats.Application/Services/PostService.cs:124-126 | deleting an id no post has changes no table |
| Posts.PostService.GetPostById | Checats.Application/Services/PostService.cs:29-35 | the post with that id, or "Post does not exist" iff there is none |
| Posts.PostService.GetAllUserPosts | Checats.Application/Services/PostService.cs:42-47 | fails with "User does not exist" iff no user has that id |
| Posts.PostService.GetPostByTitle | Checats.Application/Services/PostService.cs:58-64 | a post with that title, or "Post does not exist" iff there is none |
| Posts.PostService.CreatePost | Checats.Application/Services/PostService.cs:73-95 | validation first; then "no permission" unless a user with that id is Admin; otherwise exactly one post (fresh id, title, content, that author) is appended and its id returned, or the database refuses it; a failure changes nothing |
| Posts.PostService.UpdatePost | Checats.Application/Services/PostService.cs:104-114 | no validation; the database refuses a null or over-long title or content iff the post exists; otherwise returns the id and the posts table becomes `SetPostText` |
| Posts.PostService.DeletePost | Checats.Application/Services/PostService.cs:122-129 | returns the id; the tables become `RemovePost` of the old ones; constraints kept |
| Commentaries.FindCommentary | Checats.Application/Services/CommentaryService.cs:28-35 | "Commentary does not exist" iff no commentary has that id; otherwise the commentary with it |
| Commentaries.CreatedCommentaryFoundById | Checats.Application/Services/CommentaryService.cs:78-89 | a commentary inserted under a fresh id is the one GetCommentaryById finds |
| Commentaries.InsertCommentaryKeepsValid | Checats.Persistence/Configurations/CommentaryConfiguration.cs:11-23 | inserting a fitting commentary with a fresh id, an existing author and an existing post keeps every table constraint |
| Commentaries.SetContent | Checats.Application/Services/CommentaryService.cs:112-121 | only the content of the rows with that id changes; every other field and row is unchanged |
| Commentaries.RemoveCommentary | Checats.Application/Services/CommentaryService.cs:97-104 | a commentary survives exactly when it does not have that id |
| Commentaries.RemoveCommentaryKeepsValid | Checats.Persistence/Configurations/CommentaryConfiguration.cs:13 | deleting a commentary keeps every table constraint |
| Commentaries.RemoveCommentaryIdempotent | Checats.Application/Services/CommentaryService.cs:97-104 | deleting the same commentary twice equals deleting it once |
| Commentaries.RemoveAbsentCommentary | Checats.Application/Services/CommentaryService.cs:99-101 | deleting an id no commentary has changes nothing |
| Commentaries.CommentaryService.GetCommentaryById | Checats.Application/Services/CommentaryService.cs:28-35 | returns exactly `FindCommentary` on the current table |
| Commentaries.CommentaryService.GetAllUserCommentaries | Checats.Application/Services/CommentaryService.cs:42-50 | fails with "User does not exist" iff no user has that id |
| Commentaries.CommentaryService.GetAllPostCommentaries | Checats.Application/Services/CommentaryService.cs:57-65 | fails with "Post does not exist" iff no post has that id |
| Commentaries.CommentaryService.CreateCommentary | Checats.Application/Services/CommentaryService.cs:74-90 | content validation, then the author, then the post, the first failure winning and changing nothing; no role needed; otherwise exactly one commentary (fresh id, content, author, post) is appended and its id returned, or the database refuses it |
| Commentaries.CommentaryService.DeleteCommentary | Checats.Application/Services/CommentaryService.cs:97-104 | returns the id; the commentaries table becomes `RemoveCommentary` of the old one; users and posts untouched |
| Commentaries.CommentaryService.CommentaryUpdate | Checats.Application/Services/CommentaryService.cs:112-121 | no validation; the database refuses a null or over-1500 content iff the commentary exists; otherwise returns the id and the table becomes `SetContent` |

## Left out

- Tables.FirstWhere: the lookups have no `OrderBy`, so the database may return any matching row. The model fixes table order as insertion order, with updates made in place, and returns the first match. `Tables.FirstWhereIsFirst`, `Tables.FirstWhereAppend` and `Users.RegisterTakenNameIsShadowed` hold of that order only. The "some matching row" contracts of `FirstWhere`, `FindUser` and `FindPost` are the database's own guarantee.
- Store.ChecatsDbContext.constructor: the real context opens an existing database. The model starts from an empty database; any reachable state from there satisfies `Valid`, and every service method requires and keeps `Valid`.
- Async/await, `AsNoTracking`, `Include` and the change tracker are left out. Every call is one atomic step on the three tables.
- The navigation lists returned by `GetAllUserPosts`, `GetAllUserCommentaries` and `GetAllPostCommentaries` are left out; they are unloaded navigations. Only their not-found errors are modelled.
- `GetAll`, `GetAllPosts` and `GetAllCommentaries` return a whole table and have no rule to state, so they are not modelled.
- Posts.PostService.CreatePost and Commentaries.CommentaryService.CreateCommentary: the model inserts a row that holds the author's (and post's) id. It does not model how EF Core's `Add` treats the untracked `UserEntity`/`PostEntity` instances hung on the new entity's navigations.
- Users.UserService.ChangePassword: whether EF Core can translate the client-side `VerifyHash` call in the `Where` filter to SQL is not modelled. The filter is treated as evaluated row by row.
- Null lookup keys (`GetByName(null)`, `Login(null, ..)`, `GetPostByTitle(null)`) are not modelled. The keys are plain strings.
- BCrypt is an opaque pair of functions. The two properties the lemmas need (`Sound`, `Discriminating`) are hypotheses of those lemmas, not facts about BCrypt.
- The JWT token is an opaque function of the user id. Its signature, its claims layout and its expiry, which reads the wall clock, are not modelled.
- The `MailAddress` parser is an opaque predicate. Its grammar is not modelled.
- `Console.WriteLine` in `User.Validate` is not modelled.
- The HTTP endpoints, the DI wiring, cookie handling and the exception-to-BadRequest mapping are not part of this model.
- The shape of the database's own exception when it refuses a write is not modelled. It is the single error `ConstraintViolation`.

## Findings

| source | as written | input that shows it | evidently intended | confidence | as-written member | corrected member |
|---|---|---|---|---|---|---|
| Checats.Application/Services/UserService.cs:192 | the filter calls `VerifyHash(u.PasswordHash, oldPassword)`, passing the stored hash as the password and the old password as the hash; Login at line 30 uses the order `(password, hash)` | a user whose hash is `GenerateHash("Secret123")` calls ChangePassword with old password "Secret123" and new "Changed1": with a hasher for which the swapped call is false, no row matches, the hash stays, and logging in with "Changed1" fails with "Incorrect password" | the hash is replaced when `VerifyHash(oldPassword, u.PasswordHash)` holds, after which the new password logs in | not executed | Users.ChangePasswordAsWritten, Users.AsWrittenRefusesCorrectPassword, Users.UserService.ChangePassword | Users.ChangePasswordRows, Users.ChangePasswordThenLogin |
