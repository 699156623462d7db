/** The static `Validate` checks of the domain models User, Post and Commentary. Each runs its
    checks in a fixed order and throws at the first that fails; `Pass` is a normal return. */
module Validation {
  import opened Tables
  import opened Errors

  /** `string.IsNullOrEmpty`: whitespace is not empty. */
  predicate NullOrEmpty(s: Option<string>) {
    s.None? || s.value == []
  }

  /** User.Validate: username, then email, then password must be non-null and non-empty, then
      the email must parse as a mail address (`parsesAsMail` stands for the
      `System.Net.Mail.MailAddress` parser). No length is checked. */
  function ValidateUser(username: Option<string>, email: Option<string>, password: Option<string>,
                        parsesAsMail: string -> bool): (r: Outcome<Error>)
    ensures r.Pass? <==>
      !NullOrEmpty(username) && !NullOrEmpty(email) && !NullOrEmpty(password) && parsesAsMail(email.value)
    ensures r == Fail(UsernameNullOrEmpty) <==> NullOrEmpty(username)
    ensures r == Fail(EmailNullOrEmpty) <==> !NullOrEmpty(username) && NullOrEmpty(email)
    ensures r == Fail(PasswordNullOrEmpty) <==>
      !NullOrEmpty(username) && !NullOrEmpty(email) && NullOrEmpty(password)
    ensures r == Fail(EmailNotAnAddress) <==>
      !NullOrEmpty(username) && !NullOrEmpty(email) && !NullOrEmpty(password) && !parsesAsMail(email.value)
  {
    if NullOrEmpty(username) then Fail(UsernameNullOrEmpty)
    else if NullOrEmpty(email) then Fail(EmailNullOrEmpty)
    else if NullOrEmpty(password) then Fail(PasswordNullOrEmpty)
    else if !parsesAsMail(email.value) then Fail(EmailNotAnAddress)
    else Pass
  }

  /** Post.Validate: the title, then the content, must be non-null and non-empty. */
  function ValidatePost(title: Option<string>, content: Option<string>): (r: Outcome<Error>)
    ensures r.Pass? <==> !NullOrEmpty(title) && !NullOrEmpty(content)
    ensures r == Fail(TitleNullOrEmpty) <==> NullOrEmpty(title)
    ensures r == Fail(PostContentNullOrEmpty) <==> !NullOrEmpty(title) && NullOrEmpty(content)
  {
    if NullOrEmpty(title) then Fail(TitleNullOrEmpty)
    else if NullOrEmpty(content) then Fail(PostContentNullOrEmpty)
    else Pass
  }

  /** Commentary.Validate: the content must be non-null and non-empty. */
  function ValidateCommentary(content: Option<string>): (r: Outcome<Error>)
    ensures r.Pass? <==> content.Some? && |content.value| > 0
    ensures r.Fail? ==> r.error == CommentaryNullOrEmpty
  {
    if NullOrEmpty(content) then Fail(CommentaryNullOrEmpty) else Pass
  }

  /** The exception class each validator throws: ArgumentException for the first check,
      AggregateException for the later emptiness checks of User and Post. */
  lemma ValidationExceptionClasses(username: Option<string>, email: Option<string>,
                                   password: Option<string>, parsesAsMail: string -> bool,
                                   title: Option<string>, content: Option<string>)
    ensures ValidateUser(username, email, password, parsesAsMail).Fail? ==>
      ValidateUser(username, email, password, parsesAsMail).error.Exception() ==
        if NullOrEmpty(username) then ArgumentException
        else if NullOrEmpty(email) || NullOrEmpty(password) then AggregateException
        else FormatException
    ensures ValidatePost(title, content).Fail? ==>
      ValidatePost(title, content).error.Exception() ==
        if NullOrEmpty(title) then ArgumentException else AggregateException
    ensures ValidateCommentary(content).Fail? ==>
      ValidateCommentary(content).error.Exception() == ArgumentException
  {
  }
}
