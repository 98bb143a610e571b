/**
 * The profile controller: reading the authenticated identity (`getProfile`), the field-wise
 * partial update of an account's profile (`updateProfile`) with its normalised answer, and the
 * payload-based account lookup `findUserByPayload`.
 */
module Profiles {
  import opened Wrappers
  import opened Collections
  import opened JsStrings
  import opened Models
  import opened Tokens
  import opened Stores
  import opened Http
  import AuthMiddleware
  import PasswordLogin
  import GoogleIdentity

  const MsgNotAuthenticated := "Not authenticated"
  const MsgUserNotFound := "User not found"

  /** Which account a lookup landed on. */
  datatype AccountRef = LocalAt(k: nat) | GoogleAt(k: nat)

  /**
   * The id `findUserByPayload` reads, `userId || id || userID` (another order than the
   * middleware's): present exactly when one of the three is, `userId` first, then `id`,
   * then `userID`.
   */
  function PayloadId(payload: Claims): (r: Option<Id>)
    ensures r.None? <==> payload.userId.None? && payload.id.None? && payload.userID.None?
    ensures r.Some? ==> r == payload.userId || r == payload.id || r == payload.userID
    ensures payload.userId.Some? ==> r == payload.userId
    ensures payload.userId.None? && payload.id.Some? ==> r == payload.id
    ensures payload.userId.None? && payload.id.None? ==> r == payload.userID
  {
    if payload.userId.Some? then payload.userId else if payload.id.Some? then payload.id else payload.userID
  }

  /** `(payload.provider || "local").toLowerCase()`. */
  function PayloadProvider(payload: Claims): string
  {
    ToLower(OrElse(payload.provider, "local"))
  }

  /**
   * `findUserByPayload`: the lower-cased provider "google" selects the Google accounts, anything
   * else the local ones; the answer is the record with the payload's id in that collection, and
   * there is none exactly when the payload has no id or no record there has it.
   */
  function FindUserByPayload(s: Stores, payload: Claims): (r: Option<AccountRef>)
    ensures r.Some? ==> (r.value.GoogleAt? <==> PayloadProvider(payload) == "google")
    ensures r.Some? && r.value.GoogleAt? ==>
      PayloadId(payload).Some? && r.value.k < |s.googleUsers| && s.googleUsers[r.value.k].id == PayloadId(payload).value
    ensures r.Some? && r.value.LocalAt? ==>
      PayloadId(payload).Some? && r.value.k < |s.users| && s.users[r.value.k].id == PayloadId(payload).value
    ensures r.None? <==>
      || PayloadId(payload).None?
      || (PayloadProvider(payload) == "google" && forall g <- s.googleUsers :: g.id != PayloadId(payload).value)
      || (PayloadProvider(payload) != "google" && forall u <- s.users :: u.id != PayloadId(payload).value)
  {
    var id := PayloadId(payload);
    var provider := PayloadProvider(payload);
    if id.None? then None
    else if provider == "google" then
      match FindGoogle(s.googleUsers, id.value)
      case None => None
      case Some(k) => Some(GoogleAt(k))
    else
      match FindUser(s.users, id.value)
      case None => None
      case Some(k) => Some(LocalAt(k))
  }

  /**
   * `findUserByPayload` and the middleware disagree on two counts: a provider spelled "Google"
   * selects the Google accounts here but the local accounts in the middleware, and a payload
   * carrying both `userID` and `id` is read through `id` here but through `userID` there.
   */
  lemma PayloadLookupDiverges(u: LocalUser, g: GoogleUser)
    requires u.id != g.id
    ensures var s := Stores([u], [], [g], {}, 0);
      && FindUserByPayload(s, Claims(Some(g.id), None, None, Some("Google"), None)) == Some(GoogleAt(0))
      && AuthMiddleware.Resolve(s, Claims(Some(g.id), None, None, Some("Google"), None)) == Unauthorized(AuthMiddleware.MsgNoAccount)
      && FindUserByPayload(s, Claims(None, Some(g.id), Some(u.id), None, None)) == Some(LocalAt(0))
      && AuthMiddleware.ClaimedId(Claims(None, Some(g.id), Some(u.id), None, None)) == Some(g.id)
  {
    assert ToLower("Google") == "google";
    assert ToLower("local") == "local";
  }

  /** `getProfile`: 401 without an identity, the identity itself otherwise. */
  function GetProfile(auth: Option<Auth>): (r: Reply)
    ensures auth.None? ==> r == Unauthorized(MsgNotAuthenticated)
    ensures auth.Some? ==> r == Identity(auth.value)
  {
    match auth
    case None => Unauthorized(MsgNotAuthenticated)
    case Some(a) => Identity(a)
  }

  /**
   * A request that presents the token of a password login passes the middleware, and `getProfile`
   * then answers that local account's identity.
   */
  lemma LoginTokenShowsProfile(s: Stores, k: nat, c: AuthMiddleware.Credentials, verify: string -> Option<Claims>)
    requires Valid(s) && k < |s.users|
    requires AuthMiddleware.RequestToken(c).Some?
    requires verify(AuthMiddleware.RequestToken(c).value) == Some(PasswordLogin.LoginToken(s.users[k].id).claims)
    ensures var r := AuthMiddleware.Authenticate(s, c, verify);
      r.Identity? && GetProfile(Some(r.auth)) == Identity(AuthMiddleware.LocalAuth(s.users[k]))
  {
    AuthMiddleware.LoginTokenResolves(s, k);
  }

  /**
   * A request that presents the session token of a Google login passes the middleware, and
   * `getProfile` then answers that Google account's identity.
   */
  lemma SessionTokenShowsProfile(s: Stores, k: nat, c: AuthMiddleware.Credentials, verify: string -> Option<Claims>)
    requires Valid(s) && k < |s.googleUsers|
    requires AuthMiddleware.RequestToken(c).Some?
    requires verify(AuthMiddleware.RequestToken(c).value) == Some(GoogleIdentity.SessionToken(s.googleUsers[k]).claims)
    ensures var r := AuthMiddleware.Authenticate(s, c, verify);
      r.Identity? && GetProfile(Some(r.auth)) == Identity(AuthMiddleware.GoogleAuth(s.googleUsers[k]))
  {
    AuthMiddleware.GoogleTokenResolves(s, k);
  }

  /** The keys of a `notificationPrefs` object in a request body; a key left out is `None`. */
  datatype PrefsPatch = PrefsPatch(newsletter: Option<string>, updates: Option<bool>, offers: Option<bool>, mentions: Option<bool>)

  /**
   * The body of a profile update. `Omitted` is a field that is `undefined`; a string field given
   * as `null` is `Given(None)`.
   */
  datatype ProfilePatch = ProfilePatch(
    displayName: Field<Option<string>>,
    bio: Field<Option<string>>,
    language: Field<Option<string>>,
    timezone: Field<Option<string>>,
    notificationPrefs: Field<PrefsPatch>)

  const NoChanges := ProfilePatch(Omitted, Omitted, Omitted, Omitted, Omitted)

  /** `{ ...current, ...patch }`: every key the patch carries wins, every other key is kept. */
  function MergePrefs(current: NotificationPrefs, patch: PrefsPatch): NotificationPrefs
  {
    NotificationPrefs(
      if patch.newsletter.Some? then patch.newsletter.value else current.newsletter,
      if patch.updates.Some? then patch.updates.value else current.updates,
      if patch.offers.Some? then patch.offers.value else current.offers,
      if patch.mentions.Some? then patch.mentions.value else current.mentions)
  }

  /** `x` if it was given, the current value if it was `undefined`. */
  function Apply<T>(current: T, f: Field<T>): T
  {
    if f.Given? then f.value else current
  }

  /** The four conditional assignments and the merge of `notificationPrefs`. */
  function Patched(p: ProfileFields, patch: ProfilePatch): ProfileFields
  {
    p.(displayName := Apply(p.displayName, patch.displayName),
       bio := Apply(p.bio, patch.bio),
       language := Apply(p.language, patch.language),
       timezone := Apply(p.timezone, patch.timezone),
       notificationPrefs :=
         if patch.notificationPrefs.Given? then MergePrefs(p.notificationPrefs, patch.notificationPrefs.value)
         else p.notificationPrefs)
  }

  /**
   * A patch changes exactly the fields it gives: each given field takes the given value, each
   * omitted one keeps its value, a preference key takes the patch's value when present, and
   * `avatarUrl` never changes.
   */
  lemma PatchedFields(p: ProfileFields, patch: ProfilePatch)
    ensures var q := Patched(p, patch);
      && q.avatarUrl == p.avatarUrl
      && (patch.displayName.Omitted? ==> q.displayName == p.displayName)
      && (patch.displayName.Given? ==> q.displayName == patch.displayName.value)
      && (patch.bio.Omitted? ==> q.bio == p.bio)
      && (patch.bio.Given? ==> q.bio == patch.bio.value)
      && (patch.language.Omitted? ==> q.language == p.language)
      && (patch.language.Given? ==> q.language == patch.language.value)
      && (patch.timezone.Omitted? ==> q.timezone == p.timezone)
      && (patch.timezone.Given? ==> q.timezone == patch.timezone.value)
      && (patch.notificationPrefs.Omitted? ==> q.notificationPrefs == p.notificationPrefs)
      && (patch.notificationPrefs.Given? ==>
            var pp := patch.notificationPrefs.value;
            && (pp.newsletter.Some? ==> q.notificationPrefs.newsletter == pp.newsletter.value)
            && (pp.newsletter.None? ==> q.notificationPrefs.newsletter == p.notificationPrefs.newsletter)
            && (pp.updates.Some? ==> q.notificationPrefs.updates == pp.updates.value)
            && (pp.updates.None? ==> q.notificationPrefs.updates == p.notificationPrefs.updates)
            && (pp.offers.Some? ==> q.notificationPrefs.offers == pp.offers.value)
            && (pp.offers.None? ==> q.notificationPrefs.offers == p.notificationPrefs.offers)
            && (pp.mentions.Some? ==> q.notificationPrefs.mentions == pp.mentions.value)
            && (pp.mentions.None? ==> q.notificationPrefs.mentions == p.notificationPrefs.mentions))
  {
  }

  /** An empty body changes nothing, and sending the same update twice is the same as sending it once. */
  lemma PatchIdentityAndIdempotent(p: ProfileFields, patch: ProfilePatch)
    ensures Patched(p, NoChanges) == p
    ensures Patched(Patched(p, patch), patch) == Patched(p, patch)
  {
  }

  /**
   * The `normalized` answer: `avatarUrl || avatar || null`, `bio || ""`, `language || "en"`,
   * `timezone || "UTC"`, and the provider the request was dispatched on.
   */
  function Normalized(id: Id, username: Option<string>, email: string, p: ProfileFields, avatar: Option<string>, provider: string): (n: NormalizedUser)
    ensures Truthy(p.avatarUrl) ==> n.avatarUrl == p.avatarUrl
    ensures !Truthy(p.avatarUrl) && Truthy(avatar) ==> n.avatarUrl == avatar
    ensures !Truthy(p.avatarUrl) && !Truthy(avatar) ==> n.avatarUrl.None?
    ensures n.bio == (if Truthy(p.bio) then p.bio.value else "")
    ensures n.language == (if Truthy(p.language) then p.language.value else "en")
    ensures n.timezone == (if Truthy(p.timezone) then p.timezone.value else "UTC")
    ensures n.id == id && n.username == username && n.email == email && n.provider == provider
    ensures n.displayName == p.displayName && n.notificationPrefs == p.notificationPrefs
    ensures n.avatarUrl.Some? ==> n.avatarUrl.value != ""
    ensures n.language != "" && n.timezone != ""
  {
    NormalizedUser(
      id, username, email, p.displayName,
      if Truthy(p.avatarUrl) then p.avatarUrl else if Truthy(avatar) then avatar else None,
      OrElse(p.bio, ""), OrElse(p.language, "en"), OrElse(p.timezone, "UTC"),
      p.notificationPrefs, provider)
  }

  /** `req.auth.provider || "local"`. */
  function AuthProvider(a: Auth): string
  {
    if a.provider != "" then a.provider else "local"
  }

  /** `updateProfile`. A document `save()` rejects (a newsletter outside the enum) answers 500 and stays as it was. */
  function UpdateProfile(s: Stores, auth: Option<Auth>, patch: ProfilePatch): Step
  {
    if auth.None? then Step(Unauthorized(MsgNotAuthenticated), s)
    else
      var provider := AuthProvider(auth.value);
      if provider == "google" then
        match FindGoogle(s.googleUsers, auth.value.id)
        case None => Step(NotFound(MsgUserNotFound), s)
        case Some(k) =>
          var g := s.googleUsers[k];
          var g' := g.(profile := Patched(g.profile, patch));
          if !SavesAsGoogle(g') then Step(ServerErrorNoDot, s)
          else Step(ProfileUpdated(Normalized(g'.id, g'.username, g'.email, g'.profile, Some(g'.avatar), provider)),
                    s.(googleUsers := s.googleUsers[k := g']))
      else
        match FindUser(s.users, auth.value.id)
        case None => Step(NotFound(MsgUserNotFound), s)
        case Some(k) =>
          var u := s.users[k];
          var u' := u.(profile := Patched(u.profile, patch));
          if !SavesAsLocal(u') then Step(ServerErrorNoDot, s)
          else Step(ProfileUpdated(Normalized(u'.id, Some(u'.username), u'.email, u'.profile, None, provider)),
                    s.(users := s.users[k := u']))
  }

  /** Without an identity, or for an account that is gone, nothing changes. */
  lemma UpdateRefusals(s: Stores, auth: Option<Auth>, patch: ProfilePatch)
    ensures auth.None? ==> UpdateProfile(s, auth, patch) == Step(Unauthorized(MsgNotAuthenticated), s)
    ensures auth.Some? && AuthProvider(auth.value) == "google" && (forall g <- s.googleUsers :: g.id != auth.value.id) ==>
      UpdateProfile(s, auth, patch) == Step(NotFound(MsgUserNotFound), s)
    ensures auth.Some? && AuthProvider(auth.value) != "google" && (forall u <- s.users :: u.id != auth.value.id) ==>
      UpdateProfile(s, auth, patch) == Step(NotFound(MsgUserNotFound), s)
  {
  }

  /** A newsletter value outside the enum is refused at `save()`: 500 and no change. */
  lemma BadNewsletterRefused(s: Stores, auth: Auth, patch: ProfilePatch)
    requires patch.notificationPrefs.Given? && patch.notificationPrefs.value.newsletter.Some?
    requires patch.notificationPrefs.value.newsletter.value !in NewsletterChoices
    ensures UpdateProfile(s, Some(auth), patch).next == s
    ensures UpdateProfile(s, Some(auth), patch).reply in {Unauthorized(MsgNotAuthenticated), NotFound(MsgUserNotFound), ServerErrorNoDot}
  {
  }

  /**
   * A successful update of a local account rewrites only that account's profile, with the
   * patch applied; its id, username, email and password hash stay, and so does every other record.
   */
  lemma UpdateLocalEffect(s: Stores, a: Auth, patch: ProfilePatch, k: nat)
    requires Valid(s) && k < |s.users| && s.users[k].id == a.id && AuthProvider(a) != "google"
    requires ValidProfile(Patched(s.users[k].profile, patch))
    ensures var out := UpdateProfile(s, Some(a), patch);
      var u := s.users[k];
      && out.next == s.(users := s.users[k := u.(profile := Patched(u.profile, patch))])
      && out.reply == ProfileUpdated(Normalized(u.id, Some(u.username), u.email, Patched(u.profile, patch), None, AuthProvider(a)))
  {
    assert FindUser(s.users, a.id) == Some(k);
    assert ValidLocalUser(s.users[k]) by { assert s.users[k] in s.users; }
  }

  /** The same for a Google account: only its profile changes; googleId, username, avatar and the flag stay. */
  lemma UpdateGoogleEffect(s: Stores, a: Auth, patch: ProfilePatch, k: nat)
    requires Valid(s) && k < |s.googleUsers| && s.googleUsers[k].id == a.id && AuthProvider(a) == "google"
    requires ValidProfile(Patched(s.googleUsers[k].profile, patch))
    ensures var out := UpdateProfile(s, Some(a), patch);
      var g := s.googleUsers[k];
      && out.next == s.(googleUsers := s.googleUsers[k := g.(profile := Patched(g.profile, patch))])
      && out.reply == ProfileUpdated(Normalized(g.id, g.username, g.email, Patched(g.profile, patch), Some(g.avatar), "google"))
  {
    assert FindGoogle(s.googleUsers, a.id) == Some(k);
    assert ValidGoogleUser(s.googleUsers[k]) by { assert s.googleUsers[k] in s.googleUsers; }
  }

  lemma UpdateLocalKeepsValid(s: Stores, a: Auth, patch: ProfilePatch, k: nat)
    requires Valid(s) && k < |s.users| && s.users[k].id == a.id && AuthProvider(a) != "google"
    requires ValidProfile(Patched(s.users[k].profile, patch))
    ensures Valid(UpdateProfile(s, Some(a), patch).next)
  {
    UpdateLocalEffect(s, a, patch, k);
    var u := s.users[k];
    var u' := u.(profile := Patched(u.profile, patch));
    var next := s.(users := s.users[k := u']);
    assert u in s.users;
    UpdateUser(s.users, s.pending, k, u');
    forall v <- next.users ensures v.id < next.nextId && ValidLocalUser(v) {
      var j :| 0 <= j < |next.users| && next.users[j] == v;
      assert j != k ==> v == s.users[j];
    }
  }

  lemma UpdateGoogleKeepsValid(s: Stores, a: Auth, patch: ProfilePatch, k: nat)
    requires Valid(s) && k < |s.googleUsers| && s.googleUsers[k].id == a.id && AuthProvider(a) == "google"
    requires ValidProfile(Patched(s.googleUsers[k].profile, patch))
    ensures Valid(UpdateProfile(s, Some(a), patch).next)
  {
    UpdateGoogleEffect(s, a, patch, k);
    var g := s.googleUsers[k];
    var g' := g.(profile := Patched(g.profile, patch));
    var next := s.(googleUsers := s.googleUsers[k := g']);
    assert g in s.googleUsers;
    UpdateGoogle(s.googleUsers, k, g');
    forall h <- next.googleUsers ensures h.id < next.nextId && ValidGoogleUser(h) {
      var j :| 0 <= j < |next.googleUsers| && next.googleUsers[j] == h;
      assert j != k ==> h == s.googleUsers[j];
    }
  }

  /** Every outcome of `updateProfile` keeps the store's invariant. */
  lemma UpdatePreservesValid(s: Stores, auth: Option<Auth>, patch: ProfilePatch)
    requires Valid(s)
    ensures Valid(UpdateProfile(s, auth, patch).next)
  {
    if auth.Some? && AuthProvider(auth.value) == "google" && FindGoogle(s.googleUsers, auth.value.id).Some? {
      var k := FindGoogle(s.googleUsers, auth.value.id).value;
      if ValidProfile(Patched(s.googleUsers[k].profile, patch)) {
        UpdateGoogleKeepsValid(s, auth.value, patch, k);
      }
    } else if auth.Some? && AuthProvider(auth.value) != "google" && FindUser(s.users, auth.value.id).Some? {
      var k := FindUser(s.users, auth.value.id).value;
      if ValidProfile(Patched(s.users[k].profile, patch)) {
        UpdateLocalKeepsValid(s, auth.value, patch, k);
      }
    }
  }
}
