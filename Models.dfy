/** bcrypt, seen from the outside: a salted one-way digest that a password either matches or not. */
module Passwords {

  /** The cost factor passed to `bcrypt.hash`. */
  const SaltRounds: nat := 10

  /**
   * A bcrypt digest as an ideal one-way function: the salt and cost it was made with and the
   * password it commits to. Nothing outside this module reads `secret` except `Matches`.
   */
  datatype PasswordHash = Bcrypt(salt: nat, cost: nat, secret: string)

  /** `bcrypt.hash(password, 10)` with the random salt drawn by the caller. */
  function Hash(password: string, salt: nat): PasswordHash
  {
    Bcrypt(salt, SaltRounds, password)
  }

  /** `bcrypt.compare(password, hash)`. */
  predicate Matches(password: string, hash: PasswordHash)
  {
    hash.secret == password
  }

  /** A hash accepts the password it was made from and no other, whatever the salt. */
  lemma HashMatchesExactly(password: string, candidate: string, salt: nat)
    ensures Matches(candidate, Hash(password, salt)) <==> candidate == password
  {
  }
}

/**
 * The three Mongoose schemas: local accounts (`User`), pending local signups (`PendingUser`)
 * and Google accounts (`GoogleUser`), with their setters, defaults and `required` validators.
 */
module Models {
  import opened Wrappers
  import opened JsStrings
  import opened Passwords

  /** A document `_id`. */
  type Id = nat

  /** The values the `notificationPrefs.newsletter` enum admits. */
  const NewsletterChoices: set<string> := {"weekly", "biweekly", "monthly", "off"}

  datatype NotificationPrefs = NotificationPrefs(newsletter: string, updates: bool, offers: bool, mentions: bool)

  const DefaultPrefs := NotificationPrefs("weekly", true, true, true)

  /** The profile fields `User` and `GoogleUser` declare alike; `None` is an unset or null field. */
  datatype ProfileFields = ProfileFields(
    displayName: Option<string>,
    bio: Option<string>,
    avatarUrl: Option<string>,
    language: Option<string>,
    timezone: Option<string>,
    notificationPrefs: NotificationPrefs)

  const DefaultProfile := ProfileFields(None, None, None, Some("en"), Some("UTC"), DefaultPrefs)

  /** What `save()` validates of the profile fields: the newsletter enum. */
  predicate ValidProfile(p: ProfileFields)
  {
    p.notificationPrefs.newsletter in NewsletterChoices
  }

  /** A non-empty string with no white space at either end: what `required` accepts after `trim`. */
  predicate IsStoredName(s: string)
  {
    s != "" && !IsSpace(s[0]) && !IsSpace(s[|s| - 1])
  }

  /** A non-empty string with no upper-case letter: what `required` accepts after `lowercase`. */
  predicate IsStoredEmail(s: string)
  {
    s != "" && forall i :: 0 <= i < |s| ==> !('A' <= s[i] <= 'Z')
  }

  /** The `trim` setter yields exactly the stored names, and leaves a stored name alone. */
  lemma StoredNameIsTrimmed(s: string)
    ensures Trim(s) != "" ==> IsStoredName(Trim(s))
    ensures IsStoredName(s) ==> Trim(s) == s
  {
  }

  /** The `lowercase` setter yields exactly the stored emails, and leaves a stored email alone. */
  lemma StoredEmailIsLowered(s: string)
    ensures s != "" ==> IsStoredEmail(ToLower(s))
    ensures IsStoredEmail(s) ==> ToLower(s) == s
  {
  }

  datatype LocalUser = LocalUser(id: Id, username: string, email: string, passwordHash: PasswordHash, profile: ProfileFields)

  predicate ValidLocalUser(u: LocalUser)
  {
    IsStoredName(u.username) && IsStoredEmail(u.email) && ValidProfile(u.profile)
  }

  /**
   * `User.create({ username, email, passwordHash })`: the setters trim the username and lower-case
   * the email, the defaults fill the profile, and `required` rejects an empty username or email.
   */
  function NewLocalUser(id: Id, username: string, email: string, hash: PasswordHash): (r: Option<LocalUser>)
    ensures r.Some? <==> Trim(username) != "" && email != ""
    ensures r.Some? ==> ValidLocalUser(r.value)
    ensures r.Some? ==> r.value.id == id && r.value.username == Trim(username) && r.value.email == ToLower(email)
    ensures r.Some? ==> r.value.passwordHash == hash && r.value.profile == DefaultProfile
  {
    StoredNameIsTrimmed(username);
    StoredEmailIsLowered(email);
    if Trim(username) == "" || ToLower(email) == "" then None
    else Some(LocalUser(id, Trim(username), ToLower(email), hash, DefaultProfile))
  }

  /** What `save()` checks of an account: the `required` fields and the newsletter enum. */
  predicate SavesAsLocal(u: LocalUser)
  {
    u.username != "" && u.email != "" && ValidProfile(u.profile)
  }

  datatype PendingUser = PendingUser(id: Id, username: string, email: string, passwordHash: PasswordHash, otp: string, otpExpiresAt: int)

  predicate ValidPendingUser(p: PendingUser)
  {
    IsStoredName(p.username) && IsStoredEmail(p.email) && p.otp != ""
  }

  /** `PendingUser.create(...)`: the same setters, and every field required. */
  function NewPendingUser(id: Id, username: string, email: string, hash: PasswordHash, otp: string, expiresAt: int): (r: Option<PendingUser>)
    ensures r.Some? <==> Trim(username) != "" && email != "" && otp != ""
    ensures r.Some? ==> ValidPendingUser(r.value)
    ensures r.Some? ==> r.value.id == id && r.value.username == Trim(username) && r.value.email == ToLower(email)
    ensures r.Some? ==> r.value.passwordHash == hash && r.value.otp == otp && r.value.otpExpiresAt == expiresAt
  {
    StoredNameIsTrimmed(username);
    StoredEmailIsLowered(email);
    if Trim(username) == "" || ToLower(email) == "" || otp == "" then None
    else Some(PendingUser(id, Trim(username), ToLower(email), hash, otp, expiresAt))
  }

  datatype GoogleUser = GoogleUser(
    id: Id,
    googleId: string,
    email: string,
    name: string,
    avatar: string,
    username: Option<string>,
    isUsernameSet: bool,
    provider: string,
    profile: ProfileFields)

  predicate ValidGoogleUser(g: GoogleUser)
  {
    g.googleId != "" && IsStoredEmail(g.email) && g.provider == "google" && ValidProfile(g.profile)
  }

  /** What `save()` checks of a Google account: the `required` fields and the newsletter enum. */
  predicate SavesAsGoogle(g: GoogleUser)
  {
    g.googleId != "" && g.email != "" && ValidProfile(g.profile)
  }

  /**
   * `GoogleUser.create({ googleId, email, name, avatar, isUsernameSet: false })`: no username,
   * provider "google" and the profile defaults; `required` rejects an empty googleId or email.
   */
  function NewGoogleUser(id: Id, googleId: string, email: string, name: string, avatar: string): (r: Option<GoogleUser>)
    ensures r.Some? <==> googleId != "" && email != ""
    ensures r.Some? ==> ValidGoogleUser(r.value) && r.value.username.None? && !r.value.isUsernameSet
    ensures r.Some? ==> r.value.id == id && r.value.googleId == googleId && r.value.email == ToLower(email)
    ensures r.Some? ==> r.value.name == name && r.value.avatar == avatar && r.value.profile == DefaultProfile
  {
    StoredEmailIsLowered(email);
    if googleId == "" || email == "" then None
    else Some(GoogleUser(id, googleId, ToLower(email), name, avatar, None, false, "google", DefaultProfile))
  }

  /** Both account kinds start with the same profile: language "en", timezone "UTC", weekly newsletter, every flag on. */
  lemma SchemaDefaultsAgree(id: Id, username: string, email: string, hash: PasswordHash, googleId: string)
    requires Trim(username) != "" && email != "" && googleId != ""
    ensures NewLocalUser(id, username, email, hash).value.profile == NewGoogleUser(id, googleId, email, "", "").value.profile
    ensures NewLocalUser(id, username, email, hash).value.profile.language == Some("en")
    ensures NewLocalUser(id, username, email, hash).value.profile.timezone == Some("UTC")
    ensures NewLocalUser(id, username, email, hash).value.profile.notificationPrefs == NotificationPrefs("weekly", true, true, true)
  {
  }
}

/** What a session token carries, and what `jwt.sign` produces. */
module Tokens {
  import opened Wrappers
  import opened Models

  /** A token payload; a key that is absent is `None`. */
  datatype Claims = Claims(userId: Option<Id>, userID: Option<Id>, id: Option<Id>, provider: Option<string>, username: Option<string>)

  /** `expiresIn: "7d"`, in seconds. */
  const SevenDays: nat := 7 * 24 * 60 * 60

  /** A signed token: its payload and lifetime. The signature and secret are not modelled. */
  datatype Token = Token(claims: Claims, expiresIn: nat)
}
