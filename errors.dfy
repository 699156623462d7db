/** The exceptions the services and validators throw, one constructor per throw site kind,
    with the .NET exception class and the string passed to its constructor. */
module Errors {

  datatype ExceptionType =
    | ArgumentException
    | ArgumentNullException
    | AggregateException
    /** Thrown by `System.Net.Mail.MailAddress` for a string that is not an address. */
    | FormatException
    /** Raised by the database when a write breaks a declared constraint. */
    | DatabaseException

  datatype Error =
    | UsernameNullOrEmpty
    | EmailNullOrEmpty
    | PasswordNullOrEmpty
    | EmailNotAnAddress
    | TitleNullOrEmpty
    | PostContentNullOrEmpty
    | CommentaryNullOrEmpty
    | UserDoesNotExist
    | PostDoesNotExist
    | CommentaryDoesNotExist
    | IncorrectPassword
    | NoPostPermission
    /** ChangePassword: an old or new password is null. */
    | PasswordsNull
    /** UpdateUser: the username or the email is null. */
    | UsernameOrEmailNull
    /** UpdateUser: the password is null. */
    | PasswordNull
    /** A write the database refuses: a duplicate key, a NULL in a required column or a
        string longer than its column. */
    | ConstraintViolation
  {
    function Exception(): (r: ExceptionType)
      ensures r == DatabaseException <==> this == ConstraintViolation
      ensures r == ArgumentNullException <==> this == PasswordsNull || this == UsernameOrEmailNull
      ensures r == AggregateException <==>
        this == EmailNullOrEmpty || this == PasswordNullOrEmpty || this == PostContentNullOrEmpty
      ensures r == FormatException <==> this == EmailNotAnAddress
    {
      match this
      case UsernameNullOrEmpty => ArgumentException
      case EmailNullOrEmpty => AggregateException
      case PasswordNullOrEmpty => AggregateException
      case EmailNotAnAddress => FormatException
      case TitleNullOrEmpty => ArgumentException
      case PostContentNullOrEmpty => AggregateException
      case CommentaryNullOrEmpty => ArgumentException
      case UserDoesNotExist => ArgumentException
      case PostDoesNotExist => ArgumentException
      case CommentaryDoesNotExist => ArgumentException
      case IncorrectPassword => ArgumentException
      case NoPostPermission => ArgumentException
      case PasswordsNull => ArgumentNullException
      case UsernameOrEmailNull => ArgumentNullException
      case PasswordNull => ArgumentException
      case ConstraintViolation => DatabaseException
    }

    /** The string given to the exception's constructor (for an ArgumentNullException the
        one-string constructor takes it as the parameter name). */
    function Message(): (r: string)
      ensures r == [] <==> this == ConstraintViolation
      ensures r == "User does not exist" <==> this == UserDoesNotExist
      ensures r == "Password can not be null" <==> this == PasswordsNull || this == PasswordNull
    {
      match this
      case UsernameNullOrEmpty => "Username can not be null or empty"
      case EmailNullOrEmpty => "Email can not be null or empty"
      case PasswordNullOrEmpty => "Password can not be null or empty"
      case EmailNotAnAddress => "The specified string is not in the form required for an e-mail address."
      case TitleNullOrEmpty => "Title can not be null or empty"
      case PostContentNullOrEmpty => "Content can not be null or empty"
      case CommentaryNullOrEmpty => "Commentary can not be null or empty"
      case UserDoesNotExist => "User does not exist"
      case PostDoesNotExist => "Post does not exist"
      case CommentaryDoesNotExist => "Commentary does not exist"
      case IncorrectPassword => "Incorrect password"
      case NoPostPermission => "User does not exist or don't have permissions for post creating"
      case PasswordsNull => "Password can not be null"
      case UsernameOrEmailNull => "Email or username can not be null"
      case PasswordNull => "Password can not be null"
      case ConstraintViolation => ""
    }
  }

  /** Every throw site is told apart by its exception class and message together: the two
      sites sharing the message "Password can not be null" throw different classes. */
  lemma ThrowSitesDistinguishable(e1: Error, e2: Error)
    requires e1.Exception() == e2.Exception() && e1.Message() == e2.Message()
    ensures e1 == e2
  {
  }
}
