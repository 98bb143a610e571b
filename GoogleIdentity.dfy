/**
 * Google sign-in: the two callback handlers that find or create a Google account for a passport
 * profile (`googleCallbackHandler`, `googleLoginHandler`), and the one-shot username assignment
 * that completes a new Google account (`setGoogleUsername`).
 */
module GoogleIdentity {
  import opened Wrappers
  import opened Collections
  import opened JsStrings
  import opened Models
  import opened Tokens
  import opened Stores
  import opened Http
  import OtpSignup

  /** The parts of a passport Google profile the handlers read; an entry without `value` is `None`. */
  datatype GoogleProfile = GoogleProfile(id: string, emails: seq<Option<string>>, displayName: Option<string>, photos: seq<Option<string>>)

  /** `profile.emails?.[0]?.value?.toLowerCase()`, with `None` where that is undefined or "". */
  function ProfileEmail(p: GoogleProfile): (r: Option<string>)
    ensures r.Some? <==> |p.emails| > 0 && Truthy(p.emails[0])
    ensures r.Some? ==> r.value == ToLower(p.emails[0].value) && IsStoredEmail(r.value)
  {
    if |p.emails| > 0 && Truthy(p.emails[0]) then
      StoredEmailIsLowered(p.emails[0].value);
      Some(ToLower(p.emails[0].value))
    else None
  }

  /** `profile.displayName || ""`. */
  function ProfileName(p: GoogleProfile): string
  {
    OrElse(p.displayName, "")
  }

  /** `profile.photos?.[0]?.value || ""`. */
  function ProfileAvatar(p: GoogleProfile): string
  {
    if |p.photos| > 0 then OrElse(p.photos[0], "") else ""
  }

  /** `GoogleUser.findOne({ googleId })`. */
  function WithGoogleId(gs: seq<GoogleUser>, googleId: string): (r: Option<nat>)
    ensures r.Some? ==> r.value < |gs| && gs[r.value].googleId == googleId
    ensures r.Some? ==> forall j :: 0 <= j < r.value ==> gs[j].googleId != googleId
    ensures r.None? <==> forall g <- gs :: g.googleId != googleId
  {
    IndexWhere(gs, (g: GoogleUser) => g.googleId == googleId)
  }

  /** `GoogleUser.findOne({ email })`; the filter is already lower-case, so the setter keeps it. */
  function WithEmail(gs: seq<GoogleUser>, email: string): (r: Option<nat>)
    ensures r.Some? ==> r.value < |gs| && gs[r.value].email == email
    ensures r.Some? ==> forall j :: 0 <= j < r.value ==> gs[j].email != email
    ensures r.None? <==> forall g <- gs :: g.email != email
  {
    IndexWhere(gs, (g: GoogleUser) => g.email == email)
  }

  /** `GoogleUser.findOne({ username })`. */
  function WithUsername(gs: seq<GoogleUser>, name: string): (r: Option<nat>)
    ensures r.None? <==> forall g <- gs :: g.username != Some(name)
  {
    IndexWhere(gs, (g: GoogleUser) => g.username == Some(name))
  }

  /** `User.findOne({ username })`; the filter is already trimmed, so the setter keeps it. */
  function LocalWithUsername(users: seq<LocalUser>, name: string): (r: Option<nat>)
    ensures r.None? <==> forall u <- users :: u.username != name
  {
    IndexWhere(users, (u: LocalUser) => u.username == name)
  }

  /** `gUser.email = email; gUser.name = name; gUser.avatar = gUser.avatar || avatar`. */
  function Refreshed(g: GoogleUser, email: string, name: string, avatar: string): GoogleUser
  {
    g.(email := email, name := name, avatar := if g.avatar != "" then g.avatar else avatar)
  }

  /** Refreshing Google account `k` and saving it; `None` when `save()` rejects the document. */
  function Refresh(s: Stores, k: nat, email: string, p: GoogleProfile): (r: Option<Stores>)
    requires k < |s.googleUsers|
    ensures r.Some? <==> SavesAsGoogle(Refreshed(s.googleUsers[k], email, ProfileName(p), ProfileAvatar(p)))
    ensures r.Some? ==> r.value == s.(googleUsers := s.googleUsers[k := Refreshed(s.googleUsers[k], email, ProfileName(p), ProfileAvatar(p))])
  {
    var g := Refreshed(s.googleUsers[k], email, ProfileName(p), ProfileAvatar(p));
    if SavesAsGoogle(g) then Some(s.(googleUsers := s.googleUsers[k := g])) else None
  }

  /** `GoogleUser.create({ googleId, email, name, avatar, isUsernameSet: false })`, then on to set-username. */
  function CreateAccount(s: Stores, p: GoogleProfile, email: string): Step
  {
    match NewGoogleUser(s.nextId, p.id, email, ProfileName(p), ProfileAvatar(p))
    case None => Step(Redirect(GoogleError), s)
    case Some(g) => Step(Redirect(SetUsername(g.id)), s.(googleUsers := s.googleUsers + [g], nextId := s.nextId + 1))
  }

  /** The token a Google login hands out: `{ userId, provider: "google", username }`, seven days. */
  function SessionToken(g: GoogleUser): Token
  {
    Token(Claims(Some(g.id), None, None, Some("google"), g.username), SevenDays)
  }

  /** `googleCallbackHandler`: find by googleId only, or create; always on to set-username. */
  function GoogleCallback(s: Stores, p: GoogleProfile): Step
  {
    match ProfileEmail(p)
    case None => Step(Redirect(NoEmail), s)
    case Some(email) =>
      match WithGoogleId(s.googleUsers, p.id)
      case None => CreateAccount(s, p, email)
      case Some(k) =>
        match Refresh(s, k, email, p)
        case None => Step(Redirect(GoogleError), s)
        case Some(next) => Step(Redirect(SetUsername(s.googleUsers[k].id)), next)
  }

  /** The account `googleLoginHandler` settles on: the one with the googleId, else the first with the email. */
  function LoginMatch(gs: seq<GoogleUser>, googleId: string, email: string): Option<nat>
  {
    match WithGoogleId(gs, googleId)
    case Some(k) => Some(k)
    case None => WithEmail(gs, email)
  }

  /**
   * `googleLoginHandler`: find by googleId, then by email, or create. A new account or one without a
   * username goes on to set-username; one with a username gets a session token.
   */
  function GoogleLogin(s: Stores, p: GoogleProfile): Step
  {
    match ProfileEmail(p)
    case None => Step(Redirect(NoEmail), s)
    case Some(email) =>
      match LoginMatch(s.googleUsers, p.id, email)
      case None => CreateAccount(s, p, email)
      case Some(k) =>
        match Refresh(s, k, email, p)
        case None => Step(Redirect(GoogleError), s)
        case Some(next) =>
          var g := next.googleUsers[k];
          if !g.isUsernameSet then Step(Redirect(SetUsername(g.id)), next)
          else Step(Redirect(GoogleToken(SessionToken(g))), next)
  }

  // ---- POST /google/set-username ----

  datatype UsernameRequest = UsernameRequest(pendingId: Option<Id>, username: Option<string>)

  const MsgUsernameRequired := "pendingId and username are required."
  const MsgNoGoogleSignup := "Pending Google signup not found."
  const MsgAlreadySet := "Username already set for this account."
  const MsgUsernameInUse := "Username already in use."

  /** `setGoogleUsername`. */
  function SetGoogleUsername(s: Stores, req: UsernameRequest): Step
  {
    if req.pendingId.None? || !Truthy(req.username) then Step(BadRequest(MsgUsernameRequired), s)
    else
      match FindGoogle(s.googleUsers, req.pendingId.value)
      case None => Step(NotFound(MsgNoGoogleSignup), s)
      case Some(k) =>
        var g := s.googleUsers[k];
        if g.isUsernameSet then Step(BadRequest(MsgAlreadySet), s)
        else
          var name := Trim(req.username.value);
          if LocalWithUsername(s.users, name).Some? || WithUsername(s.googleUsers, name).Some? then
            Step(BadRequest(MsgUsernameInUse), s)
          else
            var g' := g.(username := Some(name), isUsernameSet := true);
            if !SavesAsGoogle(g') then Step(ServerError, s)
            else Step(UsernameAssigned(name, g.email), s.(googleUsers := s.googleUsers[k := g']))
  }

  // ---- properties of the callbacks ----

  /** Without a usable email both handlers answer `google_no_email` and touch nothing. */
  lemma NoEmailTouchesNothing(s: Stores, p: GoogleProfile)
    requires |p.emails| == 0 || !Truthy(p.emails[0])
    ensures GoogleCallback(s, p) == Step(Redirect(NoEmail), s)
    ensures GoogleLogin(s, p) == Step(Redirect(NoEmail), s)
  {
  }

  /** The first callback never issues a token: every outcome is a redirect to set-username or to an error. */
  lemma CallbackNeverIssuesToken(s: Stores, p: GoogleProfile)
    ensures GoogleCallback(s, p).reply.Redirect?
    ensures !GoogleCallback(s, p).reply.target.GoogleToken?
  {
  }

  /**
   * The first callback looks accounts up by googleId only: when no account has this googleId, a
   * new one is appended even if an account with the same email exists.
   */
  lemma CallbackIgnoresEmailMatches(s: Stores, p: GoogleProfile)
    requires ProfileEmail(p).Some? && p.id != ""
    requires forall g <- s.googleUsers :: g.googleId != p.id
    ensures var next := GoogleCallback(s, p).next;
      && next.googleUsers == s.googleUsers + [next.googleUsers[|s.googleUsers|]]
      && next.googleUsers[|s.googleUsers|].googleId == p.id
      && next.googleUsers[|s.googleUsers|].email == ProfileEmail(p).value
      && !next.googleUsers[|s.googleUsers|].isUsernameSet
      && GoogleCallback(s, p).reply == Redirect(SetUsername(s.nextId))
  {
    var email := ProfileEmail(p).value;
    ToLowerIdempotent(p.emails[0].value);
    var g := NewGoogleUser(s.nextId, p.id, email, ProfileName(p), ProfileAvatar(p)).value;
    assert GoogleCallback(s, p).next.googleUsers == s.googleUsers + [g];
  }

  /** An empty googleId fails the schema's `required`: `google_error`, nothing stored. */
  lemma EmptyGoogleIdIsError(s: Stores, p: GoogleProfile)
    requires ProfileEmail(p).Some? && p.id == ""
    requires forall g <- s.googleUsers :: g.googleId != ""
    ensures GoogleCallback(s, p) == Step(Redirect(GoogleError), s)
  {
  }

  /**
   * Refreshing an account overwrites its email and name, fills its avatar only when it had none,
   * and leaves every other field and every other account as they were.
   */
  lemma RefreshEffect(s: Stores, k: nat, email: string, p: GoogleProfile)
    requires k < |s.googleUsers| && Refresh(s, k, email, p).Some?
    ensures var next := Refresh(s, k, email, p).value;
      var g, g' := s.googleUsers[k], next.googleUsers[k];
      && |next.googleUsers| == |s.googleUsers|
      && (forall j :: 0 <= j < |s.googleUsers| && j != k ==> next.googleUsers[j] == s.googleUsers[j])
      && g'.email == email && g'.name == ProfileName(p)
      && (g.avatar != "" ==> g'.avatar == g.avatar)
      && (g.avatar == "" ==> g'.avatar == ProfileAvatar(p))
      && g' == g.(email := g'.email, name := g'.name, avatar := g'.avatar)
      && next.users == s.users && next.pending == s.pending && next.nextId == s.nextId
  {
  }

  /** Once an account has an avatar, no callback and no Google login changes it. */
  lemma AvatarFirstWriteWins(s: Stores, p: GoogleProfile, i: nat)
    requires i < |s.googleUsers| && s.googleUsers[i].avatar != ""
    ensures i < |GoogleCallback(s, p).next.googleUsers| && GoogleCallback(s, p).next.googleUsers[i].avatar == s.googleUsers[i].avatar
    ensures i < |GoogleLogin(s, p).next.googleUsers| && GoogleLogin(s, p).next.googleUsers[i].avatar == s.googleUsers[i].avatar
  {
    var email := ProfileEmail(p);
    if email.Some? {
      var k := WithGoogleId(s.googleUsers, p.id);
      if k.Some? && Refresh(s, k.value, email.value, p).Some? {
        RefreshEffect(s, k.value, email.value, p);
      }
      var k' := LoginMatch(s.googleUsers, p.id, email.value);
      if k'.Some? && Refresh(s, k'.value, email.value, p).Some? {
        RefreshEffect(s, k'.value, email.value, p);
      }
    }
  }

  lemma CallbackPreservesValid(s: Stores, p: GoogleProfile)
    requires Valid(s)
    ensures Valid(GoogleCallback(s, p).next)
  {
    var email := ProfileEmail(p);
    if email.Some? {
      var found := WithGoogleId(s.googleUsers, p.id);
      if found.None? {
        CreatePreservesValid(s, p, email.value);
      } else if Refresh(s, found.value, email.value, p).Some? {
        RefreshPreservesValid(s, found.value, email.value, p);
      }
    }
  }

  lemma CreatePreservesValid(s: Stores, p: GoogleProfile, email: string)
    requires Valid(s) && forall g <- s.googleUsers :: g.googleId != p.id
    ensures Valid(CreateAccount(s, p, email).next)
  {
    var r := NewGoogleUser(s.nextId, p.id, email, ProfileName(p), ProfileAvatar(p));
    if r.Some? {
      AddGoogle(s.googleUsers, r.value);
    }
  }

  lemma RefreshPreservesValid(s: Stores, k: nat, email: string, p: GoogleProfile)
    requires Valid(s) && k < |s.googleUsers| && Refresh(s, k, email, p).Some? && IsStoredEmail(email)
    ensures Valid(Refresh(s, k, email, p).value)
  {
    var g := Refreshed(s.googleUsers[k], email, ProfileName(p), ProfileAvatar(p));
    assert s.googleUsers[k] in s.googleUsers;
    UpdateGoogle(s.googleUsers, k, g);
    var next := Refresh(s, k, email, p).value;
    forall h <- next.googleUsers ensures h.id < next.nextId && ValidGoogleUser(h) {
      var j :| 0 <= j < |next.googleUsers| && next.googleUsers[j] == h;
      assert j != k ==> h == s.googleUsers[j];
    }
  }

  /**
   * Set-username checks its fields first (400) and then that the Google account exists (404);
   * both refusals leave the store unchanged.
   */
  lemma SetUsernameRefusals(s: Stores, req: UsernameRequest)
    ensures req.pendingId.None? || !Truthy(req.username) ==>
      SetGoogleUsername(s, req) == Step(BadRequest(MsgUsernameRequired), s)
    ensures req.pendingId.Some? && Truthy(req.username) && (forall g <- s.googleUsers :: g.id != req.pendingId.value) ==>
      SetGoogleUsername(s, req) == Step(NotFound(MsgNoGoogleSignup), s)
  {
  }

  /**
   * Repeated callbacks for one Google identity create at most one account: a second callback with
   * the same profile finds the account the first one left and adds none.
   */
  lemma CallbackTwiceCreatesAtMostOne(s: Stores, p: GoogleProfile)
    requires Valid(s)
    ensures var s1 := GoogleCallback(s, p).next;
      && |s1.googleUsers| <= |s.googleUsers| + 1
      && |GoogleCallback(s1, p).next.googleUsers| == |s1.googleUsers|
  {
    var s1 := GoogleCallback(s, p).next;
    if ProfileEmail(p).Some? && WithGoogleId(s.googleUsers, p.id).None? && s1 != s {
      CallbackIgnoresEmailMatches(s, p);
      assert s1.googleUsers[|s.googleUsers|] in s1.googleUsers;
    } else if ProfileEmail(p).Some? && WithGoogleId(s.googleUsers, p.id).Some? {
      var k := WithGoogleId(s.googleUsers, p.id).value;
      if Refresh(s, k, ProfileEmail(p).value, p).Some? {
        RefreshEffect(s, k, ProfileEmail(p).value, p);
        assert s1.googleUsers[k] in s1.googleUsers;
      }
    }
  }

  /**
   * One callback adds at most one account, and when it adds one, that account carries the
   * profile's googleId; a callback that answers set-username leaves an account with that googleId.
   */
  lemma CallbackRecordsGoogleId(s: Stores, p: GoogleProfile)
    ensures var out := GoogleCallback(s, p);
      && |s.googleUsers| <= |out.next.googleUsers| <= |s.googleUsers| + 1
      && (|out.next.googleUsers| == |s.googleUsers| + 1 ==> WithGoogleId(out.next.googleUsers, p.id).Some?)
      && (out.reply.Redirect? && out.reply.target.SetUsername? ==> WithGoogleId(out.next.googleUsers, p.id).Some?)
  {
    var out := GoogleCallback(s, p);
    if ProfileEmail(p).Some? {
      var email := ProfileEmail(p).value;
      match WithGoogleId(s.googleUsers, p.id)
      case None =>
        var made := NewGoogleUser(s.nextId, p.id, email, ProfileName(p), ProfileAvatar(p));
        if made.Some? {
          assert out.next.googleUsers == s.googleUsers + [made.value];
          assert out.next.googleUsers[|s.googleUsers|].googleId == p.id;
        }
      case Some(k) =>
        if Refresh(s, k, email, p).Some? {
          RefreshEffect(s, k, email, p);
          assert out.next.googleUsers[k].googleId == p.id;
        }
    }
  }

  /** A callback for a googleId that already has an account adds none. */
  lemma CallbackForKnownIdAddsNone(s: Stores, p: GoogleProfile)
    requires WithGoogleId(s.googleUsers, p.id).Some?
    ensures |GoogleCallback(s, p).next.googleUsers| == |s.googleUsers|
  {
    if ProfileEmail(p).Some? {
      var k := WithGoogleId(s.googleUsers, p.id).value;
      if Refresh(s, k, ProfileEmail(p).value, p).Some? {
        RefreshEffect(s, k, ProfileEmail(p).value, p);
      }
    }
  }

  /**
   * Two callbacks for one googleId, whatever the rest of the two profiles, create at most one
   * account between them; once the first has reached set-username, the second creates none.
   */
  lemma CallbacksForOneGoogleIdCreateAtMostOne(s: Stores, p: GoogleProfile, p2: GoogleProfile)
    requires p2.id == p.id
    ensures var s1 := GoogleCallback(s, p).next;
      var s2 := GoogleCallback(s1, p2).next;
      && |s2.googleUsers| <= |s.googleUsers| + 1
      && (GoogleCallback(s, p).reply.Redirect? && GoogleCallback(s, p).reply.target.SetUsername? ==>
            |s2.googleUsers| == |s1.googleUsers|)
  {
    var s1 := GoogleCallback(s, p).next;
    CallbackRecordsGoogleId(s, p);
    CallbackRecordsGoogleId(s1, p2);
    if WithGoogleId(s1.googleUsers, p.id).Some? {
      CallbackForKnownIdAddsNone(s1, p2);
    }
  }

  // ---- properties of the Google login ----

  /**
   * The Google login reuses the account with the googleId if there is one, and otherwise the first
   * account with the email; it never creates one then, and never changes a googleId.
   */
  lemma LoginMatchOrder(gs: seq<GoogleUser>, googleId: string, email: string)
    ensures LoginMatch(gs, googleId, email).Some? <==>
      (exists g <- gs :: g.googleId == googleId) || (exists g <- gs :: g.email == email)
    ensures (exists g <- gs :: g.googleId == googleId) ==> LoginMatch(gs, googleId, email) == WithGoogleId(gs, googleId)
  {
    if WithGoogleId(gs, googleId).None? && WithEmail(gs, email).Some? {
      assert gs[WithEmail(gs, email).value] in gs;
    }
    if WithGoogleId(gs, googleId).Some? {
      assert gs[WithGoogleId(gs, googleId).value] in gs;
    }
  }

  lemma LoginKeepsGoogleIds(s: Stores, p: GoogleProfile)
    ensures var next := GoogleLogin(s, p).next;
      && |s.googleUsers| <= |next.googleUsers| <= |s.googleUsers| + 1
      && forall j :: 0 <= j < |s.googleUsers| ==> next.googleUsers[j].googleId == s.googleUsers[j].googleId
  {
  }

  /**
   * A Google login hands out a token exactly when it settles on an existing account whose username
   * is set (and the refreshed account saves); the token names that account, says provider "google"
   * and carries its username.
   */
  lemma LoginTokenOnlyWithUsername(s: Stores, p: GoogleProfile)
    ensures var out := GoogleLogin(s, p);
      out.reply.Redirect? && out.reply.target.GoogleToken? <==>
        && ProfileEmail(p).Some?
        && LoginMatch(s.googleUsers, p.id, ProfileEmail(p).value).Some?
        && var k := LoginMatch(s.googleUsers, p.id, ProfileEmail(p).value).value;
           && k < |s.googleUsers| && s.googleUsers[k].isUsernameSet
           && Refresh(s, k, ProfileEmail(p).value, p).Some?
           && out.reply.target.token == SessionToken(out.next.googleUsers[k])
  {
    var email := ProfileEmail(p);
    if email.Some? {
      LoginMatchOrder(s.googleUsers, p.id, email.value);
    }
  }

  /** What the token of a Google login says, in the fields the middleware reads. */
  lemma SessionTokenClaims(g: GoogleUser)
    ensures SessionToken(g).claims.userId == Some(g.id)
    ensures SessionToken(g).claims.provider == Some("google")
    ensures SessionToken(g).claims.username == g.username
    ensures SessionToken(g).expiresIn == 7 * 24 * 60 * 60
  {
  }

  lemma LoginPreservesValid(s: Stores, p: GoogleProfile)
    requires Valid(s)
    ensures Valid(GoogleLogin(s, p).next)
  {
    var email := ProfileEmail(p);
    if email.Some? {
      var found := LoginMatch(s.googleUsers, p.id, email.value);
      if found.None? {
        LoginMatchOrder(s.googleUsers, p.id, email.value);
        CreatePreservesValid(s, p, email.value);
      } else if Refresh(s, found.value, email.value, p).Some? {
        RefreshPreservesValid(s, found.value, email.value, p);
      }
    }
  }

  // ---- properties of the username assignment ----

  /** A username is assigned at most once: an account that has one answers 400 and keeps it. */
  lemma UsernameSetOnce(s: Stores, req: UsernameRequest, k: nat)
    requires Valid(s) && k < |s.googleUsers| && s.googleUsers[k].isUsernameSet
    requires req.pendingId == Some(s.googleUsers[k].id) && Truthy(req.username)
    ensures SetGoogleUsername(s, req) == Step(BadRequest(MsgAlreadySet), s)
  {
    assert FindGoogle(s.googleUsers, s.googleUsers[k].id) == Some(k);
  }

  /**
   * The assignment succeeds exactly when the account exists, has no username yet, and the trimmed
   * name is held by no local account and no Google account; then only that account changes, to
   * carry the trimmed name with `isUsernameSet`.
   */
  lemma UsernameAssignment(s: Stores, req: UsernameRequest, k: nat)
    requires Valid(s) && k < |s.googleUsers|
    requires req.pendingId == Some(s.googleUsers[k].id) && Truthy(req.username)
    ensures var out := SetGoogleUsername(s, req);
      var name := Trim(req.username.value);
      && (out.reply.UsernameAssigned? <==>
            && !s.googleUsers[k].isUsernameSet
            && (forall u <- s.users :: u.username != name)
            && (forall g <- s.googleUsers :: g.username != Some(name)))
      && (out.reply.UsernameAssigned? ==>
            && out.reply == UsernameAssigned(name, s.googleUsers[k].email)
            && out.next == s.(googleUsers := s.googleUsers[k := s.googleUsers[k].(username := Some(name), isUsernameSet := true)]))
      && (!out.reply.UsernameAssigned? ==> out.next == s && out.reply.Error?)
  {
    var g := s.googleUsers[k];
    assert FindGoogle(s.googleUsers, g.id) == Some(k);
    assert g in s.googleUsers;
  }

  /** A name that is only white space passes the presence check and is stored as "". */
  lemma BlankNameStoredEmpty(s: Stores, req: UsernameRequest, k: nat)
    requires Valid(s) && k < |s.googleUsers| && !s.googleUsers[k].isUsernameSet
    requires req.pendingId == Some(s.googleUsers[k].id) && Truthy(req.username) && IsSpaceRun(req.username.value)
    requires forall g <- s.googleUsers :: g.username != Some("")
    ensures SetGoogleUsername(s, req).reply == UsernameAssigned("", s.googleUsers[k].email)
  {
    TrimBlank(req.username.value);
    UsernameAssignment(s, req, k);
    forall u <- s.users ensures u.username != "" {
      assert ValidLocalUser(u);
    }
  }

  lemma SetUsernamePreservesValid(s: Stores, req: UsernameRequest)
    requires Valid(s)
    ensures Valid(SetGoogleUsername(s, req).next)
  {
    if req.pendingId.Some? && Truthy(req.username) {
      var found := FindGoogle(s.googleUsers, req.pendingId.value);
      if found.Some? {
        var k := found.value;
        UsernameAssignment(s, req, k);
        var out := SetGoogleUsername(s, req);
        if out.reply.UsernameAssigned? {
          var g' := s.googleUsers[k].(username := Some(Trim(req.username.value)), isUsernameSet := true);
          assert s.googleUsers[k] in s.googleUsers;
          UpdateGoogle(s.googleUsers, k, g');
          forall h <- out.next.googleUsers ensures h.id < out.next.nextId && ValidGoogleUser(h) {
            var j :| 0 <= j < |out.next.googleUsers| && out.next.googleUsers[j] == h;
            assert j != k ==> h == s.googleUsers[j];
          }
        }
      }
    }
  }

  /** A Google account and the set-username flow together: a callback, then a name, then a login with a token. */
  lemma CallbackThenNameThenLogin(s: Stores, p: GoogleProfile, name: string)
    requires Valid(s) && ProfileEmail(p).Some? && p.id != ""
    requires forall g <- s.googleUsers :: g.googleId != p.id && g.username != Some(Trim(name))
    requires forall u <- s.users :: u.username != Trim(name)
    requires name != ""
    ensures var s1 := GoogleCallback(s, p).next;
      var s2 := SetGoogleUsername(s1, UsernameRequest(Some(s.nextId), Some(name))).next;
      var out := GoogleLogin(s2, p);
      && out.reply.Redirect? && out.reply.target.GoogleToken?
      && out.reply.target.token.claims.userId == Some(s.nextId)
      && out.reply.target.token.claims.username == Some(Trim(name))
  {
    CallbackIgnoresEmailMatches(s, p);
    CallbackPreservesValid(s, p);
    var s1 := GoogleCallback(s, p).next;
    var k := |s.googleUsers|;
    forall g <- s1.googleUsers ensures g.username != Some(Trim(name)) {
      var j :| 0 <= j < |s1.googleUsers| && s1.googleUsers[j] == g;
      if j < k { assert g == s.googleUsers[j] && g in s.googleUsers; }
    }
    UsernameAssignment(s1, UsernameRequest(Some(s.nextId), Some(name)), k);
    var s2 := SetGoogleUsername(s1, UsernameRequest(Some(s.nextId), Some(name))).next;
    assert s2.googleUsers[k].googleId == p.id;
    assert WithGoogleId(s2.googleUsers, p.id) == Some(k) by {
      forall j | 0 <= j < k ensures s2.googleUsers[j].googleId != p.id {
        assert s2.googleUsers[j] == s.googleUsers[j] && s.googleUsers[j] in s.googleUsers;
      }
    }
    LoginTokenOnlyWithUsername(s2, p);
  }

  // ---- the two username namespaces ----

  /**
   * Local signup consults only local accounts and pending signups: a Google account holding the
   * same name does not stop it, so a name can end up held by a local and a Google account at once.
   */
  lemma SignupIgnoresGoogleNames(s: Stores, req: OtpSignup.SignupRequest, now: int, r: real, salt: nat, g: GoogleUser)
    requires 0.0 <= r < 1.0 && OtpSignup.SignupAdmissible(s, req)
    requires g in s.googleUsers && g.username == Some(Trim(req.username.value))
    ensures OtpSignup.Signup(s, req, now, r, salt, true).reply.PendingCreated?
  {
    OtpSignup.SignupAppendsOnePending(s, req, now, r, salt, true);
  }

  /**
   * The username assignment consults local accounts and Google accounts but not pending signups:
   * a name reserved by a pending signup can still be given to a Google account.
   */
  lemma SetUsernameIgnoresPending(s: Stores, req: UsernameRequest, k: nat, q: PendingUser)
    requires Valid(s) && k < |s.googleUsers| && !s.googleUsers[k].isUsernameSet
    requires req.pendingId == Some(s.googleUsers[k].id) && Truthy(req.username)
    requires forall u <- s.users :: u.username != Trim(req.username.value)
    requires forall h <- s.googleUsers :: h.username != Some(Trim(req.username.value))
    requires q in s.pending && q.username == Trim(req.username.value)
    ensures SetGoogleUsername(s, req).reply == UsernameAssigned(q.username, s.googleUsers[k].email)
  {
    UsernameAssignment(s, req, k);
  }
}
