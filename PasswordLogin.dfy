/**
 * Password login (`loginUser`): the identifier is trimmed and matched either as a lower-cased
 * email or as a username among the local accounts; the first match must accept the password.
 * Login only reads the store.
 */
module PasswordLogin {
  import opened Wrappers
  import opened Collections
  import opened JsStrings
  import opened Passwords
  import opened Models
  import opened Tokens
  import opened Stores
  import opened Http

  datatype LoginRequest = LoginRequest(identifier: Option<string>, password: Option<string>)

  const MsgLoginRequired := "Username/email and password are required."
  const MsgInvalidCredentials := "Invalid credentials."

  /**
   * `User.findOne({ $or: [{ email: t.toLowerCase() }, { username: t }] })` for the trimmed identifier
   * `t`; the schema setters leave both filter values as they are, since they are already lower-cased
   * and trimmed respectively.
   */
  function AccountFor(users: seq<LocalUser>, t: string): Option<nat>
  {
    FirstLocalHolding(users, t, ToLower(t))
  }

  /** The token a successful login hands out: only `userId`, no provider, seven days. */
  function LoginToken(id: Id): Token
  {
    Token(Claims(Some(id), None, None, None, None), SevenDays)
  }

  /** POST /login. */
  function Login(s: Stores, req: LoginRequest): Reply
  {
    if !Truthy(req.identifier) || !Truthy(req.password) then BadRequest(MsgLoginRequired)
    else
      match AccountFor(s.users, Trim(req.identifier.value))
      case None => BadRequest(MsgInvalidCredentials)
      case Some(k) =>
        var u := s.users[k];
        if !Matches(req.password.value, u.passwordHash) then BadRequest(MsgInvalidCredentials)
        else LoggedIn(LoginToken(u.id), PublicUser(u.id, u.username, u.email))
  }

  /** A request without an identifier or a password is refused before the store is read. */
  lemma LoginRequiresFields(s: Stores, req: LoginRequest)
    requires !Truthy(req.identifier) || !Truthy(req.password)
    ensures Login(s, req) == BadRequest(MsgLoginRequired)
    ensures forall s': Stores :: Login(s', req) == Login(s, req)
  {
  }

  /**
   * A login succeeds exactly when the first account whose email is the lower-cased trimmed
   * identifier, or whose username is the trimmed identifier, accepts the password; the token then
   * names that account and nothing else, and the answer exposes its id, username and email.
   */
  lemma LoginSucceedsExactly(s: Stores, req: LoginRequest)
    requires Truthy(req.identifier) && Truthy(req.password)
    ensures var t := Trim(req.identifier.value);
      var out := Login(s, req);
      out.LoggedIn? <==>
        exists k :: IsFirstHolder(s.users, k, t, ToLower(t)) && Matches(req.password.value, s.users[k].passwordHash)
          && out == LoggedIn(LoginToken(s.users[k].id), PublicUser(s.users[k].id, s.users[k].username, s.users[k].email))
  {
    var t := Trim(req.identifier.value);
    var found := AccountFor(s.users, t);
    forall k | IsFirstHolder(s.users, k, t, ToLower(t)) ensures found == Some(k) {
      FirstHolderFound(s.users, k, t, ToLower(t));
    }
    if found.Some? {
      assert IsFirstHolder(s.users, found.value, t, ToLower(t));
    }
  }

  /** An unknown identifier and a wrong password are answered identically. */
  lemma FailuresIndistinguishable(s: Stores, req: LoginRequest)
    requires Truthy(req.identifier) && Truthy(req.password)
    ensures var t := Trim(req.identifier.value);
      (forall u <- s.users :: u.email != ToLower(t) && u.username != t) ==> Login(s, req) == BadRequest(MsgInvalidCredentials)
    ensures var found := AccountFor(s.users, Trim(req.identifier.value));
      found.Some? && !Matches(req.password.value, s.users[found.value].passwordHash) ==> Login(s, req) == BadRequest(MsgInvalidCredentials)
  {
  }

  /** Login reads only the local accounts: pending signups and Google accounts can never log in here. */
  lemma LoginIgnoresOtherStores(s: Stores, req: LoginRequest, pending: seq<PendingUser>, googleUsers: seq<GoogleUser>)
    ensures Login(s.(pending := pending, googleUsers := googleUsers), req) == Login(s, req)
  {
  }

  /**
   * Signup and verification trim the username but store the email as entered (only lower-cased),
   * while login trims the identifier: a stored email that starts with white space is never the
   * email filter of any login, so such an account can log in only by username.
   */
  lemma PaddedEmailNeverMatches(email: string, identifier: string)
    requires email != "" && IsSpace(email[0])
    ensures ToLower(Trim(identifier)) != email
  {
    var t := Trim(identifier);
    if t != "" {
      assert ToLower(t)[0] == t[0] || 'a' <= ToLower(t)[0] <= 'z';
    }
  }
}
