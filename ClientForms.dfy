/**
 * The two pieces of client logic that touch account identity: the signup form's validation
 * (`validateForm` in the signup page) and the masking of the email on the profile page
 * (`maskEmail`).
 */
module ClientForms {
  import opened Wrappers
  import opened Collections
  import opened JsStrings
  import opened Models
  import opened Stores
  import opened Http
  import OtpSignup

  // ---- the signup form ----

  /** The four text inputs; they start as "" and are always strings. */
  datatype SignupForm = SignupForm(username: string, email: string, password: string, confirmPassword: string)

  const MsgInvalidEmail := "Please enter a valid email address."
  const MsgClientMismatch := "Passwords do not match."

  predicate NoSpace(s: string)
  {
    forall i :: 0 <= i < |s| ==> !IsSpace(s[i])
  }

  /**
   * What `/^\S+@\S+\.\S+$/` accepts, stated declaratively: no white space anywhere, an "@" with
   * something before it, and after it a "." with at least one character on each side.
   */
  ghost predicate EmailShaped(s: string)
  {
    NoSpace(s) && exists i, j :: 1 <= i && i + 2 <= j && j + 2 <= |s| && s[i] == '@' && s[j] == '.'
  }

  /**
   * The test as a matcher runs it: take the first "@" after the first character (the earliest
   * one leaves the most room after it) and look for a "." between two characters past it and the
   * last character.
   */
  function EmailTest(s: string): bool
  {
    NoSpace(s) && |s| >= 1 &&
    match IndexWhere(s[1..], (c: char) => c == '@')
    case None => false
    case Some(a) =>
      var i := a + 1;
      i + 4 <= |s| && IndexWhere(s[i + 2..|s| - 1], (c: char) => c == '.').Some?
  }

  /** The matcher accepts exactly the strings the pattern describes. */
  lemma EmailTestMatchesPattern(s: string)
    ensures EmailTest(s) <==> EmailShaped(s)
  {
    if EmailTest(s) {
      var i := IndexWhere(s[1..], (c: char) => c == '@').value + 1;
      var d := IndexWhere(s[i + 2..|s| - 1], (c: char) => c == '.').value;
      assert s[i] == s[1..][i - 1];
      assert s[i + 2 + d] == s[i + 2..|s| - 1][d];
      assert 1 <= i && i + 2 <= i + 2 + d && i + 2 + d + 2 <= |s| && s[i] == '@' && s[i + 2 + d] == '.';
    }
    if EmailShaped(s) {
      var i0, j0 :| 1 <= i0 && i0 + 2 <= j0 && j0 + 2 <= |s| && s[i0] == '@' && s[j0] == '.';
      assert s[1..][i0 - 1] == '@';
      var a := IndexWhere(s[1..], (c: char) => c == '@');
      var i := a.value + 1;
      assert i <= i0;
      assert s[i + 2..|s| - 1][j0 - i - 2] == '.';
    }
  }

  /** `validateForm`: the first failing check's message, or `None` when the form may be sent. */
  function ValidateForm(f: SignupForm): Option<string>
  {
    if f.username == "" || f.email == "" || f.password == "" || f.confirmPassword == "" then Some(OtpSignup.MsgAllRequired)
    else if |f.username| < 3 then Some(OtpSignup.MsgShortUsername)
    else if !EmailTest(f.email) then Some(MsgInvalidEmail)
    else if |f.password| < 6 then Some(OtpSignup.MsgShortPassword)
    else if f.password != f.confirmPassword then Some(MsgClientMismatch)
    else None
  }

  /** A form passes exactly when every field is filled, the lengths suffice, the email has the pattern's shape and the passwords agree. */
  lemma FormAccepted(f: SignupForm)
    ensures ValidateForm(f).None? <==>
      && f.username != "" && f.email != "" && f.password != "" && f.confirmPassword != ""
      && |f.username| >= 3 && EmailShaped(f.email) && |f.password| >= 6 && f.password == f.confirmPassword
  {
    EmailTestMatchesPattern(f.email);
  }

  /** The body `handleSubmit` posts once the form passes: the four fields as typed. */
  function SubmitRequest(f: SignupForm): (r: Option<OtpSignup.SignupRequest>)
    ensures r.Some? <==> ValidateForm(f).None?
  {
    if ValidateForm(f).Some? then None
    else Some(OtpSignup.SignupRequest(Some(f.username), Some(f.email), Some(f.password), Some(f.confirmPassword)))
  }

  /**
   * A form the client lets through never meets the server's own field checks: the server answers
   * with a conflict, a 500 or 201, never with a missing-field, mismatch or length message.
   */
  lemma SubmittedFormPassesServerChecks(s: Stores, f: SignupForm, now: int, r: real, salt: nat, mailSent: bool)
    requires 0.0 <= r < 1.0 && SubmitRequest(f).Some?
    ensures var reply := OtpSignup.Signup(s, SubmitRequest(f).value, now, r, salt, mailSent).reply;
      || reply == BadRequest(OtpSignup.MsgAccountExists) || reply == BadRequest(OtpSignup.MsgPendingExists)
      || reply == ServerError || reply.PendingCreated?
  {
    OtpSignup.SignupPastValidation(s, SubmitRequest(f).value, now, r, salt, mailSent);
  }

  /**
   * The client and the server check in different orders and word the mismatch differently: a short
   * username with mismatched passwords is a length error in the browser but a mismatch on the server.
   */
  lemma ClientAndServerOrderDiffer(s: Stores, f: SignupForm, now: int, r: real, salt: nat, mailSent: bool)
    requires 0.0 <= r < 1.0
    requires f.username != "" && f.email != "" && f.password != "" && f.confirmPassword != ""
    requires |f.username| < 3 && f.password != f.confirmPassword
    ensures ValidateForm(f) == Some(OtpSignup.MsgShortUsername)
    ensures OtpSignup.Signup(s, OtpSignup.SignupRequest(Some(f.username), Some(f.email), Some(f.password), Some(f.confirmPassword)), now, r, salt, mailSent).reply
      == BadRequest(OtpSignup.MsgMismatch)
  {
  }

  /**
   * The email's shape is checked only in the browser: on an empty store the server admits a
   * signup whose email the form would refuse, as long as every other check passes.
   */
  lemma EmailShapeOnlyOnClient(f: SignupForm, now: int, r: real, salt: nat)
    requires 0.0 <= r < 1.0
    requires f.username != "" && !IsSpace(f.username[0]) && |f.username| >= 3
    requires f.email != "" && !EmailShaped(f.email)
    requires |f.password| >= 6 && f.password == f.confirmPassword
    ensures ValidateForm(f) == Some(MsgInvalidEmail)
    ensures OtpSignup.Signup(Stores([], [], [], {}, 0), OtpSignup.SignupRequest(Some(f.username), Some(f.email), Some(f.password), Some(f.confirmPassword)), now, r, salt, true).reply.PendingCreated?
  {
    EmailTestMatchesPattern(f.email);
    TrimBlank(f.username);
    var req := OtpSignup.SignupRequest(Some(f.username), Some(f.email), Some(f.password), Some(f.confirmPassword));
    assert OtpSignup.SignupAdmissible(Stores([], [], [], {}, 0), req);
    OtpSignup.SignupEffect(Stores([], [], [], {}, 0), req, now, r, salt, true);
  }

  // ---- the masked email on the profile page ----

  /** The local part with all but its first two characters starred (all of it when it has at most two). */
  function MaskLocal(local: string): (m: string)
    ensures |m| == |local|
  {
    if |local| <= 2 then Repeat('*', |local|)
    else local[..2] + Repeat('*', |local| - 2)
  }

  /**
   * `maskEmail`: "" for a missing email, the email itself when it is to be shown, and otherwise the
   * starred local part, "@" and the second piece of `split("@")`. An email without a non-empty
   * local part and domain is shown as it is.
   */
  function MaskEmail(email: Option<string>, showEmail: bool): (r: string)
    ensures !Truthy(email) ==> r == ""
    ensures Truthy(email) && showEmail ==> r == email.value
    ensures Truthy(email) ==> r != ""
  {
    if !Truthy(email) then ""
    else if showEmail then email.value
    else
      var parts := Split(email.value, '@');
      var local := parts[0];
      var domain := if |parts| > 1 then parts[1] else "";
      if local == "" || domain == "" then email.value
      else MaskLocal(local) + "@" + domain
  }

  /**
   * For an email with a single "@" at `k`, the mask keeps the length, the domain, the "@" and the
   * first two characters of a local part longer than two, and stars every other character of the
   * local part.
   */
  lemma MaskSingleAt(email: string, k: nat)
    requires 0 < k < |email| - 1 && email[k] == '@'
    requires '@' !in email[..k] && '@' !in email[k + 1..]
    ensures var m := MaskEmail(Some(email), false);
      && |m| == |email|
      && forall i :: 0 <= i < |m| ==> m[i] == (if i < k && (i >= 2 || k <= 2) then '*' else email[i])
  {
    SplitOnce(email, '@', k);
    var m := MaskEmail(Some(email), false);
    assert m == MaskLocal(email[..k]) + "@" + email[k + 1..];
    forall i | 0 <= i < |m| ensures m[i] == (if i < k && (i >= 2 || k <= 2) then '*' else email[i]) {
      if i < k {
        assert m[i] == MaskLocal(email[..k])[i];
      } else if i > k {
        assert m[i] == email[k + 1..][i - k - 1];
      }
    }
  }

  /** Masking fails open: an email without "@", or one that starts with it, is shown unmasked. */
  lemma MaskFailsOpen(email: string)
    requires email != "" && ('@' !in email || email[0] == '@')
    ensures MaskEmail(Some(email), false) == email
  {
    if '@' !in email {
      SplitHead(email, '@', |email|);
    } else {
      SplitHead(email, '@', 0);
    }
  }

  /**
   * Masking also fails open when the piece after the first "@" is empty: "a@" and "a@@b" are
   * shown as they are.
   */
  lemma MaskFailsOpenOnEmptyDomain(local: string, rest: string)
    requires '@' !in local
    requires rest == "" || rest[0] == '@'
    ensures MaskEmail(Some(local + "@" + rest), false) == local + "@" + rest
  {
    SplitCons(local, '@', rest);
    SplitHead(rest, '@', 0);
  }

  /**
   * With a second "@", whatever follows it disappears from the masked text: only the piece
   * between the first two "@" is shown as the domain.
   */
  lemma MaskDropsAfterSecondAt(local: string, domain: string, tail: string)
    requires local != "" && domain != "" && '@' !in local && '@' !in domain
    ensures MaskEmail(Some(local + "@" + domain + "@" + tail), false) == MaskLocal(local) + "@" + domain
  {
    var email := local + "@" + domain + "@" + tail;
    var rest := domain + "@" + tail;
    assert email == local + "@" + rest;
    SplitCons(local, '@', rest);
    SplitCons(domain, '@', tail);
    MaskOfPieces(email, local, domain);
  }

  lemma MaskOfPieces(email: string, local: string, domain: string)
    requires local != "" && domain != ""
    requires Split(email, '@')[0] == local && |Split(email, '@')| > 1 && Split(email, '@')[1] == domain
    ensures MaskEmail(Some(email), false) == MaskLocal(local) + "@" + domain
  {
  }
}
