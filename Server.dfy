/**
 * The server's collections as one mutable object, and the handlers that change them written as
 * the route handlers are: a sequence of lookups, early answers and writes (`create`, `save`,
 * `findByIdAndDelete`). Each method is proved to do exactly what the step function of its handler
 * describes, so every property proved of the step functions holds of the methods, and each keeps
 * the store's invariant.
 */
module Server {
  import opened Wrappers
  import opened Collections
  import opened JsStrings
  import opened Passwords
  import opened Models
  import opened Http
  import S = Stores
  import OtpSignup
  import GoogleIdentity
  import Profiles
  import Avatars

  class Database {
    var users: seq<LocalUser>
    var pending: seq<PendingUser>
    var googleUsers: seq<GoogleUser>
    var uploads: set<string>
    var nextId: nat

    /** The collections as a value, the argument of the step functions. */
    function State(): S.Stores
      reads this
    {
      S.Stores(users, pending, googleUsers, uploads, nextId)
    }

    ghost predicate Valid()
      reads this
    {
      S.Valid(State())
    }

    /** An empty database. */
    constructor ()
      ensures State() == S.Stores([], [], [], {}, 0)
      ensures Valid()
    {
      users, pending, googleUsers, uploads, nextId := [], [], [], {}, 0;
      new;
      S.EmptyIsValid();
    }

    /** POST /api/auth/signup: the field checks, then the store is consulted and written. */
    method Signup(req: OtpSignup.SignupRequest, now: int, r: real, salt: nat, mailSent: bool) returns (reply: Reply)
      requires 0.0 <= r < 1.0
      modifies this
      ensures Step(reply, State()) == OtpSignup.Signup(old(State()), req, now, r, salt, mailSent)
      ensures old(Valid()) ==> Valid()
    {
      if !OtpSignup.AllGiven(req) {
        reply := BadRequest(OtpSignup.MsgAllRequired);
      } else if req.password.value != req.confirmPassword.value {
        reply := BadRequest(OtpSignup.MsgMismatch);
      } else if |req.username.value| < 3 {
        reply := BadRequest(OtpSignup.MsgShortUsername);
      } else if |req.password.value| < 6 {
        reply := BadRequest(OtpSignup.MsgShortPassword);
      } else {
        reply := AdmitPending(req, now, r, salt, mailSent);
      }
    }

    /** The part of signup after the field checks: the two uniqueness queries, `create`, the mail. */
    method AdmitPending(req: OtpSignup.SignupRequest, now: int, r: real, salt: nat, mailSent: bool) returns (reply: Reply)
      requires 0.0 <= r < 1.0
      requires OtpSignup.AllGiven(req) && req.password.value == req.confirmPassword.value
      requires |req.username.value| >= 3 && |req.password.value| >= 6
      modifies this
      ensures Step(reply, State()) == OtpSignup.Signup(old(State()), req, now, r, salt, mailSent)
      ensures old(Valid()) ==> Valid()
    {
      ghost var s0 := State();
      var username, email, password := req.username.value, req.email.value, req.password.value;
      var existingUser := OtpSignup.AccountHolding(users, username, email);
      var existingPending := OtpSignup.PendingHolding(pending, username, email);
      if existingUser.Some? {
        reply := BadRequest(OtpSignup.MsgAccountExists);
      } else if existingPending.Some? {
        reply := BadRequest(OtpSignup.MsgPendingExists);
      } else {
        var passwordHash := Hash(password, salt);
        var otp := OtpSignup.GenerateOtp(r);
        var created := NewPendingUser(nextId, username, email, passwordHash, otp, now + OtpSignup.OtpLifetime);
        if created.None? {
          reply := ServerError;
        } else {
          pending := pending + [created.value];
          nextId := nextId + 1;
          if mailSent {
            reply := PendingCreated(created.value.id, email, username);
          } else {
            reply := ServerError;
          }
        }
      }
      assert State() == OtpSignup.Signup(s0, req, now, r, salt, mailSent).next;
      if S.Valid(s0) {
        OtpSignup.SignupPreservesValid(s0, req, now, r, salt, mailSent);
      }
    }

    /** POST /api/auth/verify-otp. */
    method VerifyOtp(req: OtpSignup.VerifyRequest, now: int, mailSent: bool) returns (reply: Reply)
      modifies this
      ensures Step(reply, State()) == OtpSignup.VerifyOtp(old(State()), req, now, mailSent)
      ensures old(Valid()) ==> Valid()
    {
      ghost var s0 := State();
      if req.pendingId.None? || !Truthy(req.otp) {
        reply := BadRequest(OtpSignup.MsgVerifyRequired);
      } else {
        var found := S.FindPending(pending, req.pendingId.value);
        if found.None? {
          reply := BadRequest(OtpSignup.MsgNoSession);
        } else if pending[found.value].otp != req.otp.value {
          reply := BadRequest(OtpSignup.MsgWrongOtp);
        } else {
          reply := Redeem(found.value, now, mailSent);
        }
      }
      if S.Valid(s0) {
        OtpSignup.VerifyPreservesValid(s0, req, now, mailSent);
      }
    }

    /** The part of verification once the code of pending record `k` matches: the expiry, the second uniqueness check, then `create`. */
    method Redeem(k: nat, now: int, mailSent: bool) returns (reply: Reply)
      requires k < |pending|
      modifies this
      ensures Step(reply, State()) == OtpSignup.Redeem(old(State()), k, now, mailSent)
    {
      var pendingUser := pending[k];
      if pendingUser.otpExpiresAt < now {
        pending := RemoveAt(pending, k);
        reply := BadRequest(OtpSignup.MsgExpired);
      } else if OtpSignup.AccountHolding(users, pendingUser.username, pendingUser.email).Some? {
        pending := RemoveAt(pending, k);
        reply := BadRequest(OtpSignup.MsgAccountExists);
      } else {
        reply := CreateAccount(k, mailSent);
      }
    }

    /** The two writes of a successful verification: the new account is added and pending record `k` deleted. */
    method Promote(u: LocalUser, k: nat)
      requires k < |pending|
      modifies this
      ensures State() == old(State()).(users := old(users) + [u], pending := RemoveAt(old(pending), k), nextId := old(nextId) + 1)
    {
      users := users + [u];
      nextId := nextId + 1;
      pending := RemoveAt(pending, k);
    }

    /** `User.create` from pending record `k`, the record's deletion, then the welcome mail. */
    method CreateAccount(k: nat, mailSent: bool) returns (reply: Reply)
      requires k < |pending|
      modifies this
      ensures Step(reply, State()) == OtpSignup.Admit(old(State()), k, mailSent)
    {
      ghost var s0 := State();
      var pendingUser := pending[k];
      var created := NewLocalUser(nextId, pendingUser.username, pendingUser.email, pendingUser.passwordHash);
      if created.None? {
        reply := ServerError;
      } else {
        var user := created.value;
        Promote(user, k);
        if mailSent {
          reply := AccountCreated(PublicUser(user.id, user.username, user.email));
        } else {
          reply := ServerError;
        }
      }
      assert Step(reply, State()) == OtpSignup.Admit(s0, k, mailSent);
    }

    /** Creating a Google account from a profile (shared by both Google handlers). */
    method CreateGoogleAccount(p: GoogleIdentity.GoogleProfile, email: string) returns (reply: Reply)
      modifies this
      ensures Step(reply, State()) == GoogleIdentity.CreateAccount(old(State()), p, email)
    {
      var created := NewGoogleUser(nextId, p.id, email, GoogleIdentity.ProfileName(p), GoogleIdentity.ProfileAvatar(p));
      if created.None? {
        reply := Redirect(GoogleError);
      } else {
        googleUsers := googleUsers + [created.value];
        nextId := nextId + 1;
        reply := Redirect(SetUsername(created.value.id));
      }
    }

    /** Refreshing the email, name and (if unset) avatar of Google account `k` and saving it. */
    method RefreshGoogleAccount(k: nat, email: string, p: GoogleIdentity.GoogleProfile) returns (saved: bool)
      requires k < |googleUsers|
      modifies this
      ensures var r := GoogleIdentity.Refresh(old(State()), k, email, p);
        && saved == r.Some?
        && State() == (if saved then r.value else old(State()))
    {
      var user := googleUsers[k];
      user := user.(email := email, name := GoogleIdentity.ProfileName(p));
      if user.avatar == "" {
        user := user.(avatar := GoogleIdentity.ProfileAvatar(p));
      }
      saved := SavesAsGoogle(user);
      if saved {
        googleUsers := googleUsers[k := user];
      }
    }

    /** GET /api/auth/google/callback. */
    method GoogleCallback(p: GoogleIdentity.GoogleProfile) returns (reply: Reply)
      modifies this
      ensures Step(reply, State()) == GoogleIdentity.GoogleCallback(old(State()), p)
      ensures old(Valid()) ==> Valid()
    {
      ghost var s0 := State();
      var email := GoogleIdentity.ProfileEmail(p);
      if email.None? {
        reply := Redirect(NoEmail);
      } else {
        var found := GoogleIdentity.WithGoogleId(googleUsers, p.id);
        if found.None? {
          reply := CreateGoogleAccount(p, email.value);
        } else {
          var k := found.value;
          var saved := RefreshGoogleAccount(k, email.value, p);
          if saved {
            reply := Redirect(SetUsername(googleUsers[k].id));
          } else {
            reply := Redirect(GoogleError);
          }
        }
      }
      assert State() == GoogleIdentity.GoogleCallback(s0, p).next;
      if S.Valid(s0) {
        GoogleIdentity.CallbackPreservesValid(s0, p);
      }
    }

    /** GET /api/auth/google/login/callback. */
    method GoogleLogin(p: GoogleIdentity.GoogleProfile) returns (reply: Reply)
      modifies this
      ensures Step(reply, State()) == GoogleIdentity.GoogleLogin(old(State()), p)
      ensures old(Valid()) ==> Valid()
    {
      ghost var s0 := State();
      var email := GoogleIdentity.ProfileEmail(p);
      if email.None? {
        reply := Redirect(NoEmail);
      } else {
        var found := GoogleIdentity.LoginMatch(googleUsers, p.id, email.value);
        if found.None? {
          reply := CreateGoogleAccount(p, email.value);
        } else {
          var k := found.value;
          var saved := RefreshGoogleAccount(k, email.value, p);
          if !saved {
            reply := Redirect(GoogleError);
          } else if !googleUsers[k].isUsernameSet {
            reply := Redirect(SetUsername(googleUsers[k].id));
          } else {
            reply := Redirect(GoogleToken(GoogleIdentity.SessionToken(googleUsers[k])));
          }
        }
      }
      assert State() == GoogleIdentity.GoogleLogin(s0, p).next;
      if S.Valid(s0) {
        GoogleIdentity.LoginPreservesValid(s0, p);
      }
    }

    /** POST /api/auth/google/set-username. */
    method SetGoogleUsername(req: GoogleIdentity.UsernameRequest) returns (reply: Reply)
      modifies this
      ensures Step(reply, State()) == GoogleIdentity.SetGoogleUsername(old(State()), req)
      ensures old(Valid()) ==> Valid()
    {
      if req.pendingId.None? || !Truthy(req.username) {
        reply := BadRequest(GoogleIdentity.MsgUsernameRequired);
      } else {
        var found := S.FindGoogle(googleUsers, req.pendingId.value);
        if found.None? {
          reply := NotFound(GoogleIdentity.MsgNoGoogleSignup);
        } else if googleUsers[found.value].isUsernameSet {
          reply := BadRequest(GoogleIdentity.MsgAlreadySet);
        } else {
          reply := ClaimUsername(req, found.value);
        }
      }
    }

    /** The part of set-username once the account is found and has no name yet. */
    method ClaimUsername(req: GoogleIdentity.UsernameRequest, k: nat) returns (reply: Reply)
      requires req.pendingId.Some? && Truthy(req.username)
      requires S.FindGoogle(googleUsers, req.pendingId.value) == Some(k)
      requires !googleUsers[k].isUsernameSet
      modifies this
      ensures Step(reply, State()) == GoogleIdentity.SetGoogleUsername(old(State()), req)
      ensures old(Valid()) ==> Valid()
    {
      ghost var s0 := State();
      var user := googleUsers[k];
      var username := Trim(req.username.value);
      var taken := GoogleIdentity.LocalWithUsername(users, username).Some?
        || GoogleIdentity.WithUsername(googleUsers, username).Some?;
      if taken {
        reply := BadRequest(GoogleIdentity.MsgUsernameInUse);
      } else {
        user := user.(username := Some(username), isUsernameSet := true);
        if !SavesAsGoogle(user) {
          reply := ServerError;
        } else {
          googleUsers := googleUsers[k := user];
          reply := UsernameAssigned(username, user.email);
        }
      }
      assert State() == GoogleIdentity.SetGoogleUsername(s0, req).next;
      if S.Valid(s0) {
        GoogleIdentity.SetUsernamePreservesValid(s0, req);
      }
    }

    /** PUT /api/profile: the given fields are assigned one by one, then the document is saved. */
    method UpdateProfile(auth: Option<Auth>, patch: Profiles.ProfilePatch) returns (reply: Reply)
      modifies this
      ensures Step(reply, State()) == Profiles.UpdateProfile(old(State()), auth, patch)
      ensures old(Valid()) ==> Valid()
    {
      ghost var s0 := State();
      if auth.None? {
        reply := Unauthorized(Profiles.MsgNotAuthenticated);
      } else {
        var provider := Profiles.AuthProvider(auth.value);
        if provider == "google" {
          var found := S.FindGoogle(googleUsers, auth.value.id);
          if found.None? {
            reply := NotFound(Profiles.MsgUserNotFound);
          } else {
            var k := found.value;
            var user := googleUsers[k];
            var profile := PatchFields(user.profile, patch);
            user := user.(profile := profile);
            if !SavesAsGoogle(user) {
              reply := ServerErrorNoDot;
            } else {
              googleUsers := googleUsers[k := user];
              reply := ProfileUpdated(Profiles.Normalized(user.id, user.username, user.email, user.profile, Some(user.avatar), provider));
            }
          }
        } else {
          var found := S.FindUser(users, auth.value.id);
          if found.None? {
            reply := NotFound(Profiles.MsgUserNotFound);
          } else {
            var k := found.value;
            var user := users[k];
            var profile := PatchFields(user.profile, patch);
            user := user.(profile := profile);
            if !SavesAsLocal(user) {
              reply := ServerErrorNoDot;
            } else {
              users := users[k := user];
              reply := ProfileUpdated(Profiles.Normalized(user.id, Some(user.username), user.email, user.profile, None, provider));
            }
          }
        }
      }
      assert State() == Profiles.UpdateProfile(s0, auth, patch).next;
      if S.Valid(s0) {
        Profiles.UpdatePreservesValid(s0, auth, patch);
      }
    }

    /** The conditional assignments of `updateProfile`, one field at a time. */
    static method PatchFields(p: ProfileFields, patch: Profiles.ProfilePatch) returns (q: ProfileFields)
      ensures q == Profiles.Patched(p, patch)
    {
      q := p;
      if patch.displayName.Given? { q := q.(displayName := patch.displayName.value); }
      if patch.bio.Given? { q := q.(bio := patch.bio.value); }
      if patch.language.Given? { q := q.(language := patch.language.value); }
      if patch.timezone.Given? { q := q.(timezone := patch.timezone.value); }
      if patch.notificationPrefs.Given? {
        q := q.(notificationPrefs := Profiles.MergePrefs(q.notificationPrefs, patch.notificationPrefs.value));
      }
    }

    /** POST /api/profile/avatar: the file is written first, then the account is looked up and saved. */
    method UploadAvatar(auth: Option<Auth>, hasFile: bool, processed: bool, nowMs: nat, random: real) returns (reply: Reply)
      requires 0.0 <= random < 1.0
      modifies this
      ensures Step(reply, State()) == Avatars.UploadAvatar(old(State()), auth, hasFile, processed, nowMs, random)
      ensures old(Valid()) ==> Valid()
    {
      ghost var s0 := State();
      if auth.None? {
        reply := Unauthorized(Profiles.MsgNotAuthenticated);
      } else if !hasFile {
        reply := BadRequest(Avatars.MsgNoFile);
      } else if !processed {
        reply := ServerErrorNoDot;
      } else {
        var filename := Avatars.Filename(nowMs, Avatars.Nonce(random));
        uploads := uploads + {filename};
        var publicUrl := Avatars.AvatarUrl(filename);
        var provider := Profiles.AuthProvider(auth.value);
        if provider == "google" {
          var found := S.FindGoogle(googleUsers, auth.value.id);
          if found.None? {
            reply := NotFound(Profiles.MsgUserNotFound);
          } else {
            var k := found.value;
            var user := googleUsers[k];
            user := user.(profile := user.profile.(avatarUrl := Some(publicUrl)));
            if !SavesAsGoogle(user) {
              reply := ServerErrorNoDot;
            } else {
              googleUsers := googleUsers[k := user];
              reply := AvatarStored(publicUrl);
            }
          }
        } else {
          var found := S.FindUser(users, auth.value.id);
          if found.None? {
            reply := NotFound(Profiles.MsgUserNotFound);
          } else {
            var k := found.value;
            var user := users[k];
            user := user.(profile := user.profile.(avatarUrl := Some(publicUrl)));
            if !SavesAsLocal(user) {
              reply := ServerErrorNoDot;
            } else {
              users := users[k := user];
              reply := AvatarStored(publicUrl);
            }
          }
        }
      }
      assert State() == Avatars.UploadAvatar(s0, auth, hasFile, processed, nowMs, random).next;
      if S.Valid(s0) {
        Avatars.UploadPreservesValid(s0, auth, hasFile, processed, nowMs, random);
      }
    }
  }
}
