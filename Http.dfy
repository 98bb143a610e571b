/** What the handlers answer: JSON bodies with a status, or redirects to the frontend. */
module Http {
  import opened Wrappers
  import opened Models
  import opened Tokens
  import opened Stores

  /** The `{ id, username, email }` that signup verification and login expose. */
  datatype PublicUser = PublicUser(id: Id, username: string, email: string)

  /** `req.auth`: the identity the auth middleware attaches to an authenticated request. */
  datatype Auth = Auth(id: Id, username: Option<string>, email: string, avatar: Option<string>, provider: string)

  /** The normalised account a profile update answers with; `avatarUrl == None` is `null`. */
  datatype NormalizedUser = NormalizedUser(
    id: Id,
    username: Option<string>,
    email: string,
    displayName: Option<string>,
    avatarUrl: Option<string>,
    bio: string,
    language: string,
    timezone: string,
    notificationPrefs: NotificationPrefs,
    provider: string)

  /** Where a Google callback sends the browser. */
  datatype RedirectTarget =
    | NoEmail                      // `/?auth=google_no_email`
    | GoogleError                  // `/?auth=google_error`
    | SetUsername(pendingId: Id)   // `/set-username?pendingId=<id>`
    | GoogleToken(token: Token)    // `/#google_token=<token>`

  datatype Reply =
    | Error(status: nat, message: string)
    | PendingCreated(pendingId: Id, email: string, username: string)
    | AccountCreated(user: PublicUser)
    | LoggedIn(token: Token, user: PublicUser)
    | UsernameAssigned(username: string, email: string)
    | Redirect(target: RedirectTarget)
    | Identity(auth: Auth)
    | ProfileUpdated(profile: NormalizedUser)
    | AvatarStored(avatarUrl: string)

  /** A handler's answer together with the store it leaves behind. */
  datatype Step = Step(reply: Reply, next: Stores)

  function BadRequest(message: string): Reply { Error(400, message) }
  function Unauthorized(message: string): Reply { Error(401, message) }
  function NotFound(message: string): Reply { Error(404, message) }

  /** What every `catch` block answers. */
  const ServerError := Error(500, "Server error.")
  const ServerErrorNoDot := Error(500, "Server error")
}
