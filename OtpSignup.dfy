/**
 * Local signup with a one-time password (`/signup` and `/verify-otp`): a signup that passes
 * validation and the uniqueness checks becomes a pending record holding a six-digit code valid for
 * ten minutes; presenting that code in time turns the pending record into an account.
 */
module OtpSignup {
  import opened Wrappers
  import opened Collections
  import opened JsStrings
  import opened Passwords
  import opened Models
  import opened Stores
  import opened Http

  datatype SignupRequest = SignupRequest(username: Option<string>, email: Option<string>, password: Option<string>, confirmPassword: Option<string>)

  datatype VerifyRequest = VerifyRequest(pendingId: Option<Id>, otp: Option<string>)

  /** How long a code stays valid, in milliseconds. */
  const OtpLifetime: int := 10 * 60 * 1000

  const MsgAllRequired := "All fields are required."
  const MsgMismatch := "Password and confirm password do not match."
  const MsgShortUsername := "Username must be at least 3 characters."
  const MsgShortPassword := "Password must be at least 6 characters."
  const MsgAccountExists := "Username or email already exists."
  const MsgPendingExists := "There is already a pending signup with this username or email. Please check your email for OTP."
  const MsgVerifyRequired := "pendingId and otp are required."
  const MsgNoSession := "Invalid or expired OTP session. Please sign up again."
  const MsgWrongOtp := "Invalid OTP."
  const MsgExpired := "OTP has expired. Please sign up again."

  /** `Math.floor(100000 + Math.random() * 900000).toString()`, given the draw `r` in [0, 1). */
  function GenerateOtp(r: real): (otp: string)
    requires 0.0 <= r < 1.0
    ensures |otp| == 6 && forall i :: 0 <= i < |otp| ==> IsDigit(otp[i])
    ensures 100000 <= ParseDecimal(otp) <= 999999
  {
    var n: nat := (100000.0 + r * 900000.0).Floor;
    DecimalLength(n, 5);
    DecimalString(n)
  }

  /** Every code from 100000 to 999999 can be drawn. */
  lemma GenerateOtpCoversRange(n: nat)
    requires 100000 <= n <= 999999
    ensures var r := (n - 100000) as real / 900000.0; 0.0 <= r < 1.0 && GenerateOtp(r) == DecimalString(n)
  {
    var r := (n - 100000) as real / 900000.0;
    assert r * 900000.0 == (n - 100000) as real;
    assert (100000.0 + r * 900000.0).Floor == n;
  }

  predicate AllGiven(req: SignupRequest)
  {
    Truthy(req.username) && Truthy(req.email) && Truthy(req.password) && Truthy(req.confirmPassword)
  }

  /** `findOne({ $or: [{ email }, { username }] })` on the accounts, the filter values normalised by the schema setters. */
  function AccountHolding(users: seq<LocalUser>, username: string, email: string): Option<nat>
  {
    FirstLocalHolding(users, Trim(username), ToLower(email))
  }

  /** The same query on the pending signups. */
  function PendingHolding(pending: seq<PendingUser>, username: string, email: string): Option<nat>
  {
    FirstPendingHolding(pending, Trim(username), ToLower(email))
  }

  /**
   * POST /signup. `now` is the clock in milliseconds, `r` the draw behind the code, `salt` bcrypt's
   * salt, and `mailSent` whether sending the code succeeded (a failed send answers 500 after the
   * pending record was written).
   */
  function Signup(s: Stores, req: SignupRequest, now: int, r: real, salt: nat, mailSent: bool): Step
    requires 0.0 <= r < 1.0
  {
    if !AllGiven(req) then Step(BadRequest(MsgAllRequired), s)
    else
      var username, email, password := req.username.value, req.email.value, req.password.value;
      if password != req.confirmPassword.value then Step(BadRequest(MsgMismatch), s)
      else if |username| < 3 then Step(BadRequest(MsgShortUsername), s)
      else if |password| < 6 then Step(BadRequest(MsgShortPassword), s)
      else if AccountHolding(s.users, username, email).Some? then Step(BadRequest(MsgAccountExists), s)
      else if PendingHolding(s.pending, username, email).Some? then Step(BadRequest(MsgPendingExists), s)
      else
        match NewPendingUser(s.nextId, username, email, Hash(password, salt), GenerateOtp(r), now + OtpLifetime)
        case None => Step(ServerError, s)
        case Some(p) =>
          var next := s.(pending := s.pending + [p], nextId := s.nextId + 1);
          if mailSent then Step(PendingCreated(p.id, email, username), next) else Step(ServerError, next)
  }

  /**
   * When a signup is admitted, stated on its own: every field given, the passwords equal, the
   * lengths long enough, a username that is not all white space, and neither the lower-cased
   * email nor the trimmed username held by an account or a pending signup.
   */
  ghost predicate SignupAdmissible(s: Stores, req: SignupRequest)
  {
    && AllGiven(req)
    && req.password.value == req.confirmPassword.value
    && |req.username.value| >= 3 && |req.password.value| >= 6
    && Trim(req.username.value) != ""
    && (forall u <- s.users :: u.email != ToLower(req.email.value) && u.username != Trim(req.username.value))
    && (forall p <- s.pending :: p.email != ToLower(req.email.value) && p.username != Trim(req.username.value))
  }

  /** A signup that is not admissible answers with an error and leaves the store as it was. */
  lemma SignupRejects(s: Stores, req: SignupRequest, now: int, r: real, salt: nat, mailSent: bool)
    requires 0.0 <= r < 1.0 && !SignupAdmissible(s, req)
    ensures Signup(s, req, now, r, salt, mailSent).next == s
    ensures Signup(s, req, now, r, salt, mailSent).reply.Error?
  {
  }

  /**
   * A signup changes the store exactly when it is admissible, and 201 is answered exactly when it
   * is admissible and the mail went out.
   */
  lemma SignupEffect(s: Stores, req: SignupRequest, now: int, r: real, salt: nat, mailSent: bool)
    requires 0.0 <= r < 1.0
    ensures var out := Signup(s, req, now, r, salt, mailSent);
      && (out.next != s <==> SignupAdmissible(s, req))
      && (out.reply.PendingCreated? <==> SignupAdmissible(s, req) && mailSent)
  {
    if SignupAdmissible(s, req) {
      SignupAppendsOnePending(s, req, now, r, salt, mailSent);
      var out := Signup(s, req, now, r, salt, mailSent);
      assert |out.next.pending| == |s.pending| + 1;
    } else {
      SignupRejects(s, req, now, r, salt, mailSent);
    }
  }

  /**
   * An admissible signup appends exactly one pending record: a fresh id, the trimmed username, the
   * lower-cased email, a hash the password matches, the drawn code and an expiry ten minutes from
   * now. Nothing else in the store changes; the reply is 201 if the mail went out and 500 if not.
   */
  lemma SignupAppendsOnePending(s: Stores, req: SignupRequest, now: int, r: real, salt: nat, mailSent: bool)
    requires 0.0 <= r < 1.0 && SignupAdmissible(s, req)
    ensures var out := Signup(s, req, now, r, salt, mailSent);
      var p := PendingUser(s.nextId, Trim(req.username.value), ToLower(req.email.value), Hash(req.password.value, salt), GenerateOtp(r), now + OtpLifetime);
      && out.next == s.(pending := s.pending + [p], nextId := s.nextId + 1)
      && Matches(req.password.value, p.passwordHash)
      && out.reply == (if mailSent then PendingCreated(s.nextId, req.email.value, req.username.value) else ServerError)
  {
    var username, email, password := req.username.value, req.email.value, req.password.value;
    assert AccountHolding(s.users, username, email).None?;
    assert PendingHolding(s.pending, username, email).None?;
    assert NewPendingUser(s.nextId, username, email, Hash(password, salt), GenerateOtp(r), now + OtpLifetime).Some?;
  }

  /**
   * The validation runs in a fixed order before the store is consulted: a missing field first, then a
   * password mismatch (whatever the lengths), then a short username, then a short password.
   */
  lemma SignupValidationOrder(s: Stores, req: SignupRequest, now: int, r: real, salt: nat, mailSent: bool)
    requires 0.0 <= r < 1.0
    ensures var out := Signup(s, req, now, r, salt, mailSent);
      && (!AllGiven(req) ==> out == Step(BadRequest(MsgAllRequired), s))
      && (AllGiven(req) && req.password.value != req.confirmPassword.value ==> out == Step(BadRequest(MsgMismatch), s))
      && (AllGiven(req) && req.password.value == req.confirmPassword.value && |req.username.value| < 3 ==>
            out == Step(BadRequest(MsgShortUsername), s))
      && (AllGiven(req) && req.password.value == req.confirmPassword.value && |req.username.value| >= 3 && |req.password.value| < 6 ==>
            out == Step(BadRequest(MsgShortPassword), s))
  {
  }

  /**
   * Past the field checks, the only answers left are the two conflicts, a 500 (a blank username
   * refused by the schema, or a failed mail) and 201.
   */
  lemma SignupPastValidation(s: Stores, req: SignupRequest, now: int, r: real, salt: nat, mailSent: bool)
    requires 0.0 <= r < 1.0
    requires AllGiven(req) && req.password.value == req.confirmPassword.value
    requires |req.username.value| >= 3 && |req.password.value| >= 6
    ensures var reply := Signup(s, req, now, r, salt, mailSent).reply;
      || reply == BadRequest(MsgAccountExists) || reply == BadRequest(MsgPendingExists)
      || reply == ServerError || reply.PendingCreated?
  {
    var username, email, password := req.username.value, req.email.value, req.password.value;
    if AccountHolding(s.users, username, email).None? && PendingHolding(s.pending, username, email).None? {
      var p := NewPendingUser(s.nextId, username, email, Hash(password, salt), GenerateOtp(r), now + OtpLifetime);
      if p.Some? {
        assert Signup(s, req, now, r, salt, mailSent).reply == (if mailSent then PendingCreated(s.nextId, email, username) else ServerError);
      }
    }
  }

  /** A held email or username is reported against the accounts before the pending signups. */
  lemma SignupConflictOrder(s: Stores, req: SignupRequest, now: int, r: real, salt: nat, mailSent: bool, u: LocalUser, p: PendingUser)
    requires 0.0 <= r < 1.0
    requires AllGiven(req) && req.password.value == req.confirmPassword.value
    requires |req.username.value| >= 3 && |req.password.value| >= 6
    requires p in s.pending && (p.email == ToLower(req.email.value) || p.username == Trim(req.username.value))
    ensures u in s.users && (u.email == ToLower(req.email.value) || u.username == Trim(req.username.value)) ==>
      Signup(s, req, now, r, salt, mailSent) == Step(BadRequest(MsgAccountExists), s)
    ensures (forall v <- s.users :: v.email != ToLower(req.email.value) && v.username != Trim(req.username.value)) ==>
      Signup(s, req, now, r, salt, mailSent) == Step(BadRequest(MsgPendingExists), s)
  {
  }

  /**
   * A username of three or more white-space characters passes the length check but trims to "",
   * which the schema's `required` rejects: 500, and nothing is stored.
   */
  lemma BlankUsernameIsServerError(s: Stores, req: SignupRequest, now: int, r: real, salt: nat, mailSent: bool)
    requires 0.0 <= r < 1.0
    requires AllGiven(req) && req.password.value == req.confirmPassword.value
    requires |req.username.value| >= 3 && |req.password.value| >= 6 && IsSpaceRun(req.username.value)
    requires forall u <- s.users :: u.email != ToLower(req.email.value) && u.username != ""
    requires forall p <- s.pending :: p.email != ToLower(req.email.value) && p.username != ""
    ensures Signup(s, req, now, r, salt, mailSent) == Step(ServerError, s)
  {
    var username, email, password := req.username.value, req.email.value, req.password.value;
    TrimBlank(username);
    assert AccountHolding(s.users, username, email).None?;
    assert PendingHolding(s.pending, username, email).None?;
    assert NewPendingUser(s.nextId, username, email, Hash(password, salt), GenerateOtp(r), now + OtpLifetime).None?;
  }

  lemma SignupPreservesValid(s: Stores, req: SignupRequest, now: int, r: real, salt: nat, mailSent: bool)
    requires 0.0 <= r < 1.0 && Valid(s)
    ensures Valid(Signup(s, req, now, r, salt, mailSent).next)
  {
    if SignupAdmissible(s, req) {
      SignupAppendsOnePending(s, req, now, r, salt, mailSent);
      var p := PendingUser(s.nextId, Trim(req.username.value), ToLower(req.email.value), Hash(req.password.value, salt), GenerateOtp(r), now + OtpLifetime);
      StoredNameIsTrimmed(req.username.value);
      StoredEmailIsLowered(req.email.value);
      AddPending(s.users, s.pending, p);
    } else {
      SignupRejects(s, req, now, r, salt, mailSent);
    }
  }

  /** A send failure answers 500 but leaves the pending record, so the same signup sent again is refused as pending. */
  lemma FailedMailBlocksRetry(s: Stores, req: SignupRequest, now: int, r: real, salt: nat, later: int, r2: real, salt2: nat, mailSent2: bool)
    requires 0.0 <= r < 1.0 && 0.0 <= r2 < 1.0 && SignupAdmissible(s, req)
    ensures Signup(s, req, now, r, salt, false).reply == ServerError
    ensures var s1 := Signup(s, req, now, r, salt, false).next;
      Signup(s1, req, later, r2, salt2, mailSent2) == Step(BadRequest(MsgPendingExists), s1)
  {
    var s1 := Signup(s, req, now, r, salt, false).next;
    var p := s1.pending[|s.pending|];
    assert p in s1.pending;
  }

  /** Two signups with the same email before either is verified: the second is refused. */
  lemma DuplicatePendingEmailRejected(s: Stores, req: SignupRequest, req2: SignupRequest, now: int, later: int, r: real, r2: real, salt: nat, salt2: nat)
    requires 0.0 <= r < 1.0 && 0.0 <= r2 < 1.0 && SignupAdmissible(s, req)
    requires AllGiven(req2) && req2.password.value == req2.confirmPassword.value
    requires |req2.username.value| >= 3 && |req2.password.value| >= 6
    requires ToLower(req2.email.value) == ToLower(req.email.value)
    requires forall u <- s.users :: u.email != ToLower(req2.email.value) && u.username != Trim(req2.username.value)
    ensures var s1 := Signup(s, req, now, r, salt, true).next;
      Signup(s1, req2, later, r2, salt2, true) == Step(BadRequest(MsgPendingExists), s1)
  {
    var s1 := Signup(s, req, now, r, salt, true).next;
    assert s1.pending[|s.pending|] in s1.pending;
  }

  // ---- POST /verify-otp ----

  /** POST /verify-otp. `now` is the clock, `mailSent` whether the welcome mail went out. */
  function VerifyOtp(s: Stores, req: VerifyRequest, now: int, mailSent: bool): Step
  {
    if req.pendingId.None? || !Truthy(req.otp) then Step(BadRequest(MsgVerifyRequired), s)
    else
      match FindPending(s.pending, req.pendingId.value)
      case None => Step(BadRequest(MsgNoSession), s)
      case Some(k) =>
        if s.pending[k].otp != req.otp.value then Step(BadRequest(MsgWrongOtp), s)
        else Redeem(s, k, now, mailSent)
  }

  /** Verification once the code of pending record `k` matched: the deadline, the second uniqueness check, then `create`. */
  function Redeem(s: Stores, k: nat, now: int, mailSent: bool): Step
    requires k < |s.pending|
  {
    var p := s.pending[k];
    if p.otpExpiresAt < now then Step(BadRequest(MsgExpired), s.(pending := RemoveAt(s.pending, k)))
    else if AccountHolding(s.users, p.username, p.email).Some? then
      Step(BadRequest(MsgAccountExists), s.(pending := RemoveAt(s.pending, k)))
    else Admit(s, k, mailSent)
  }

  /** `User.create` from pending record `k`, its deletion, then the welcome mail. */
  function Admit(s: Stores, k: nat, mailSent: bool): Step
    requires k < |s.pending|
  {
    var p := s.pending[k];
    match NewLocalUser(s.nextId, p.username, p.email, p.passwordHash)
    case None => Step(ServerError, s)
    case Some(u) =>
      var next := s.(users := s.users + [u], pending := RemoveAt(s.pending, k), nextId := s.nextId + 1);
      if mailSent then Step(AccountCreated(PublicUser(u.id, u.username, u.email)), next)
      else Step(ServerError, next)
  }

  /** A missing field or an unknown pending id: 400 and nothing changes. */
  lemma VerifyUnknownChangesNothing(s: Stores, req: VerifyRequest, now: int, mailSent: bool)
    requires req.pendingId.None? || !Truthy(req.otp) || forall p <- s.pending :: p.id != req.pendingId.value
    ensures VerifyOtp(s, req, now, mailSent).next == s
    ensures VerifyOtp(s, req, now, mailSent).reply.Error? && VerifyOtp(s, req, now, mailSent).reply.status == 400
  {
  }

  /** A wrong code answers 400 and keeps the pending record, expired or not: retries stay possible. */
  lemma VerifyWrongOtpKeepsPending(s: Stores, req: VerifyRequest, now: int, mailSent: bool, k: nat)
    requires Valid(s) && k < |s.pending|
    requires req.pendingId == Some(s.pending[k].id) && Truthy(req.otp) && req.otp.value != s.pending[k].otp
    ensures VerifyOtp(s, req, now, mailSent) == Step(BadRequest(MsgWrongOtp), s)
  {
    assert FindPending(s.pending, s.pending[k].id) == Some(k);
  }

  /** The right code after the deadline answers 400 and deletes the pending record. */
  lemma VerifyExpiredDeletes(s: Stores, req: VerifyRequest, now: int, mailSent: bool, k: nat)
    requires Valid(s) && k < |s.pending|
    requires req.pendingId == Some(s.pending[k].id) && req.otp == Some(s.pending[k].otp)
    requires s.pending[k].otpExpiresAt < now
    ensures var out := VerifyOtp(s, req, now, mailSent);
      && out.reply == BadRequest(MsgExpired)
      && out.next == s.(pending := RemoveAt(s.pending, k))
      && (forall p <- out.next.pending :: p.id != s.pending[k].id)
      && Valid(out.next)
  {
    assert FindPending(s.pending, s.pending[k].id) == Some(k);
    RemovePending(s.users, s.pending, k);
  }

  /**
   * In a valid store no account ever holds a pending signup's username or email, so the second
   * uniqueness check of `/verify-otp` never fires when requests run one at a time.
   */
  lemma VerifyNeverConflicts(s: Stores, req: VerifyRequest, now: int, mailSent: bool)
    requires Valid(s)
    ensures VerifyOtp(s, req, now, mailSent).reply != BadRequest(MsgAccountExists)
    ensures VerifyOtp(s, req, now, mailSent).reply != ServerError || !mailSent
  {
    if req.pendingId.Some? && Truthy(req.otp) {
      var found := FindPending(s.pending, req.pendingId.value);
      if found.Some? {
        PendingIsFree(s, found.value);
      }
    }
  }

  /** A valid store's pending record `k` is held by no account and is always accepted by `create`. */
  lemma PendingIsFree(s: Stores, k: nat)
    requires Valid(s) && k < |s.pending|
    ensures var p := s.pending[k];
      AccountHolding(s.users, p.username, p.email).None? && NewLocalUser(s.nextId, p.username, p.email, p.passwordHash).Some?
  {
    var p := s.pending[k];
    assert p in s.pending;
    StoredNameIsTrimmed(p.username);
    StoredEmailIsLowered(p.email);
    forall u | u in s.users ensures u.email != p.email && u.username != p.username {
    }
  }

  /** The right code in time: exactly one account appears, carrying the pending record's name, email and hash, and the pending record is gone. */
  lemma VerifyPromotes(s: Stores, req: VerifyRequest, now: int, mailSent: bool, k: nat)
    requires Valid(s) && k < |s.pending|
    requires req.pendingId == Some(s.pending[k].id) && req.otp == Some(s.pending[k].otp)
    requires now <= s.pending[k].otpExpiresAt
    ensures var out := VerifyOtp(s, req, now, mailSent);
      var p := s.pending[k];
      && out.next.users == s.users + [LocalUser(s.nextId, p.username, p.email, p.passwordHash, DefaultProfile)]
      && out.next.pending == RemoveAt(s.pending, k)
      && out.next.googleUsers == s.googleUsers
      && out.next.uploads == s.uploads
      && out.next.nextId == s.nextId + 1
      && (forall q <- out.next.pending :: q.id != p.id)
      && (mailSent ==> out.reply == AccountCreated(PublicUser(s.nextId, p.username, p.email)))
      && Valid(out.next)
  {
    var p := s.pending[k];
    assert FindPending(s.pending, p.id) == Some(k);
    PendingIsFree(s, k);
    assert p in s.pending;
    StoredNameIsTrimmed(p.username);
    StoredEmailIsLowered(p.email);
    RemovePending(s.users, s.pending, k);
    Promote(s.users, s.pending, k, LocalUser(s.nextId, p.username, p.email, p.passwordHash, DefaultProfile));
  }

  lemma VerifyPreservesValid(s: Stores, req: VerifyRequest, now: int, mailSent: bool)
    requires Valid(s)
    ensures Valid(VerifyOtp(s, req, now, mailSent).next)
  {
    if req.pendingId.None? || !Truthy(req.otp) || FindPending(s.pending, req.pendingId.value).None? {
      VerifyUnknownChangesNothing(s, req, now, mailSent);
    } else {
      var k := FindPending(s.pending, req.pendingId.value).value;
      if s.pending[k].otp != req.otp.value {
        VerifyWrongOtpKeepsPending(s, req, now, mailSent, k);
      } else if s.pending[k].otpExpiresAt < now {
        VerifyExpiredDeletes(s, req, now, mailSent, k);
      } else {
        VerifyPromotes(s, req, now, mailSent, k);
      }
    }
  }

  /**
   * A fresh signup followed by verification with the mailed code before it expires leaves exactly
   * one new account and no pending record behind.
   */
  lemma SignupThenVerify(s: Stores, req: SignupRequest, now: int, r: real, salt: nat, later: int)
    requires Valid(s) && 0.0 <= r < 1.0 && SignupAdmissible(s, req)
    requires later <= now + OtpLifetime
    ensures var s1 := Signup(s, req, now, r, salt, true).next;
      var out := VerifyOtp(s1, VerifyRequest(Some(s.nextId), Some(GenerateOtp(r))), later, true);
      && out.reply == AccountCreated(PublicUser(s.nextId + 1, Trim(req.username.value), ToLower(req.email.value)))
      && |out.next.users| == |s.users| + 1
      && out.next.pending == s.pending
  {
    SignupAppendsOnePending(s, req, now, r, salt, true);
    SignupPreservesValid(s, req, now, r, salt, true);
    var s1 := Signup(s, req, now, r, salt, true).next;
    var k := |s.pending|;
    var p := s1.pending[k];
    RemoveAtLast(s.pending, p);
    VerifyPromotes(s1, VerifyRequest(Some(p.id), Some(p.otp)), later, true, k);
  }
}
