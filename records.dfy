/** The rows of the two tables and what a handler answers with. */
module Records {
  import opened Opt

  /** A row of `users`: the username and the bcrypt hash stored in the `password` column. */
  datatype User = User(username: string, password: string)

  /** A row of `posts`. */
  datatype Post = Post(title: string, body: string, authorid: int, createdDate: string)

  /** The messages the handlers push, each with the text the page shows. */
  datatype Message =
    | UsernameRequired | UsernameTooShort | UsernameTooLong | UsernameNotAlphanumeric | UsernameTaken
    | PasswordRequired | PasswordTooShort | PasswordTooLong
    | TitleRequired | BodyRequired
    | InvalidCredentials
  {
    function Text(): (r: string)
      ensures r != ""
    {
      match this
      case UsernameRequired => "Username is required"
      case UsernameTooShort => "Username must be at least 3 characters"
      case UsernameTooLong => "Username must be less than 10 characters"
      case UsernameNotAlphanumeric => "Username can only contain letters"
      case UsernameTaken => "Username already taken"
      case PasswordRequired => "Password is required"
      case PasswordTooShort => "Password must be at least 8 characters"
      case PasswordTooLong => "Password must be less than 70 characters"
      case TitleRequired => "Title is required"
      case BodyRequired => "Body is required"
      case InvalidCredentials => "Invalid username / password provided"
    }
  }

  /** No two messages share a text, so a page's error list determines the messages behind it. */
  lemma TextsTellMessagesApart(m1: Message, m2: Message)
    ensures m1.Text() == m2.Text() <==> m1 == m2
  {
  }

  /** The EJS templates the handlers render. */
  datatype View =
    | LoginPage
    | HomePage
    | CreatePostPage
    | EditPostPage(editing: Option<Post>)
    | SinglePostPage(post: Post, isAuthor: bool)

  /** Redirect targets: `/` and `/post/:id`. */
  datatype Location = Home | PostPage(id: int)

  /**
   * What a handler sends back: a rendered page with its error list, a redirect
   * that may set the session cookie, or the 500 Express answers when an
   * exception escapes the handler.
   */
  datatype Response =
    | Render(view: View, errors: seq<Message>)
    | Redirect(to: Location, setCookie: Option<string>)
    | ServerError
}
