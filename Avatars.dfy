/**
 * `uploadAvatar`: the uploaded image is re-encoded into `uploads/avatars/<time>-<nonce>.webp`,
 * and only then is the account looked up and its `avatarUrl` pointed at the file.
 * The image processing itself is a parameter (`processed`: whether it succeeded); the written
 * files are the store's `uploads` set.
 */
module Avatars {
  import opened Wrappers
  import opened Collections
  import opened JsStrings
  import opened Models
  import opened Stores
  import opened Http
  import Profiles

  const MsgNoFile := "No file uploaded"
  const AvatarDir := "/uploads/avatars/"
  const WebpSuffix := ".webp"

  /** `Math.round(random * 1e9)` for a `random` from `Math.random()`, which lies in [0, 1). */
  function Nonce(random: real): (n: nat)
    requires 0.0 <= random < 1.0
    ensures n <= 1000000000
  {
    (random * 1000000000.0 + 0.5).Floor
  }

  /** `${Date.now()}-${nonce}.webp`. */
  function Filename(nowMs: nat, nonce: nat): (f: string)
    ensures |f| > |WebpSuffix| && f[|f| - |WebpSuffix|..] == WebpSuffix
    ensures '/' !in f
  {
    var f := DecimalString(nowMs) + "-" + DecimalString(nonce) + WebpSuffix;
    assert forall i :: 0 <= i < |f| ==> f[i] != '/' by {
      forall i | 0 <= i < |f| ensures f[i] != '/' {
        if i < |DecimalString(nowMs)| {
          assert f[i] == DecimalString(nowMs)[i];
        } else if i == |DecimalString(nowMs)| {
        } else if i < |DecimalString(nowMs)| + 1 + |DecimalString(nonce)| {
          assert f[i] == DecimalString(nonce)[i - |DecimalString(nowMs)| - 1];
        }
      }
    }
    f
  }

  /** The public URL of a stored avatar. */
  function AvatarUrl(filename: string): (url: string)
    ensures StartsWith(url, AvatarDir) && url[|AvatarDir|..] == filename
  {
    AvatarDir + filename
  }

  /** In a string of digits followed by "-", the first "-" is right after the digits. */
  lemma DashAfterDigits(a: string, rest: string)
    requires forall i :: 0 <= i < |a| ==> IsDigit(a[i])
    ensures IndexWhere(a + "-" + rest, (c: char) => c == '-') == Some(|a|)
  {
    var f := a + "-" + rest;
    var r := IndexWhere(f, (c: char) => c == '-');
    assert f[|a|] == '-';
    forall j | 0 <= j < |a| ensures f[j] != '-' {
      assert f[j] == a[j];
    }
  }

  /** A name `<digits>-<b>.webp` determines its two parts. */
  lemma SplitName(a1: string, b1: string, a2: string, b2: string)
    requires forall i :: 0 <= i < |a1| ==> IsDigit(a1[i])
    requires forall i :: 0 <= i < |a2| ==> IsDigit(a2[i])
    requires a1 + "-" + b1 + WebpSuffix == a2 + "-" + b2 + WebpSuffix
    ensures a1 == a2 && b1 == b2
  {
    var f := a1 + "-" + b1 + WebpSuffix;
    assert a1 + "-" + (b1 + WebpSuffix) == f == a2 + "-" + (b2 + WebpSuffix);
    DashAfterDigits(a1, b1 + WebpSuffix);
    DashAfterDigits(a2, b2 + WebpSuffix);
    assert a1 == f[..|a1|] == a2;
    assert b1 == f[|a1| + 1..|f| - |WebpSuffix|] == b2;
  }

  /** Two uploads get the same file exactly when they happen in the same millisecond with the same nonce. */
  lemma FilenameInjective(t1: nat, n1: nat, t2: nat, n2: nat)
    requires Filename(t1, n1) == Filename(t2, n2)
    ensures t1 == t2 && n1 == n2
  {
    SplitName(DecimalString(t1), DecimalString(n1), DecimalString(t2), DecimalString(n2));
    DecimalStringInjective(t1, t2);
    DecimalStringInjective(n1, n2);
  }

  /**
   * The public URL names exactly one upload: the part after the avatar directory is a single path
   * segment, and two uploads share a URL exactly when they share the millisecond and the nonce.
   */
  lemma AvatarUrlNamesUpload(t1: nat, n1: nat, t2: nat, n2: nat)
    ensures '/' !in AvatarUrl(Filename(t1, n1))[|AvatarDir|..]
    ensures AvatarUrl(Filename(t1, n1)) == AvatarUrl(Filename(t2, n2)) <==> t1 == t2 && n1 == n2
  {
    if AvatarUrl(Filename(t1, n1)) == AvatarUrl(Filename(t2, n2)) {
      FilenameInjective(t1, n1, t2, n2);
    }
  }

  /** POST /api/profile/avatar. */
  function UploadAvatar(s: Stores, auth: Option<Auth>, hasFile: bool, processed: bool, nowMs: nat, random: real): Step
    requires 0.0 <= random < 1.0
  {
    if auth.None? then Step(Unauthorized(Profiles.MsgNotAuthenticated), s)
    else if !hasFile then Step(BadRequest(MsgNoFile), s)
    else if !processed then Step(ServerErrorNoDot, s)
    else
      var filename := Filename(nowMs, Nonce(random));
      var url := AvatarUrl(filename);
      var s1 := s.(uploads := s.uploads + {filename});
      if Profiles.AuthProvider(auth.value) == "google" then
        match FindGoogle(s.googleUsers, auth.value.id)
        case None => Step(NotFound(Profiles.MsgUserNotFound), s1)
        case Some(k) =>
          var g := s.googleUsers[k];
          var g' := g.(profile := g.profile.(avatarUrl := Some(url)));
          if !SavesAsGoogle(g') then Step(ServerErrorNoDot, s1)
          else Step(AvatarStored(url), s1.(googleUsers := s.googleUsers[k := g']))
      else
        match FindUser(s.users, auth.value.id)
        case None => Step(NotFound(Profiles.MsgUserNotFound), s1)
        case Some(k) =>
          var u := s.users[k];
          var u' := u.(profile := u.profile.(avatarUrl := Some(url)));
          if !SavesAsLocal(u') then Step(ServerErrorNoDot, s1)
          else Step(AvatarStored(url), s1.(users := s.users[k := u']))
  }

  /** The checks come in order (identity, then file, then processing), and a refused upload changes nothing. */
  lemma UploadRefusals(s: Stores, auth: Option<Auth>, hasFile: bool, processed: bool, nowMs: nat, random: real)
    requires 0.0 <= random < 1.0
    ensures auth.None? ==> UploadAvatar(s, auth, hasFile, processed, nowMs, random) == Step(Unauthorized(Profiles.MsgNotAuthenticated), s)
    ensures auth.Some? && !hasFile ==> UploadAvatar(s, auth, hasFile, processed, nowMs, random) == Step(BadRequest(MsgNoFile), s)
    ensures auth.Some? && hasFile && !processed ==> UploadAvatar(s, auth, hasFile, processed, nowMs, random) == Step(ServerErrorNoDot, s)
  {
  }

  /**
   * The file is written before the account is looked up: when the account is gone the answer is
   * 404 but the file stays behind, referenced by no account.
   */
  lemma MissingAccountKeepsFile(s: Stores, a: Auth, nowMs: nat, random: real)
    requires 0.0 <= random < 1.0
    requires Profiles.AuthProvider(a) == "google" ==> forall g <- s.googleUsers :: g.id != a.id
    requires Profiles.AuthProvider(a) != "google" ==> forall u <- s.users :: u.id != a.id
    ensures var f := Filename(nowMs, Nonce(random));
      UploadAvatar(s, Some(a), true, true, nowMs, random) == Step(NotFound(Profiles.MsgUserNotFound), s.(uploads := s.uploads + {f}))
  {
  }

  /**
   * A successful upload for a local account stores the file and changes that account's
   * `avatarUrl` and nothing else; the answer is the URL just stored.
   */
  lemma UploadLocalEffect(s: Stores, a: Auth, nowMs: nat, random: real, k: nat)
    requires 0.0 <= random < 1.0
    requires Valid(s) && k < |s.users| && s.users[k].id == a.id && Profiles.AuthProvider(a) != "google"
    ensures var f := Filename(nowMs, Nonce(random));
      var u := s.users[k];
      var out := UploadAvatar(s, Some(a), true, true, nowMs, random);
      && out.reply == AvatarStored(AvatarUrl(f))
      && out.next == s.(uploads := s.uploads + {f}, users := s.users[k := u.(profile := u.profile.(avatarUrl := Some(AvatarUrl(f))))])
  {
    assert FindUser(s.users, a.id) == Some(k);
    assert ValidLocalUser(s.users[k]) by { assert s.users[k] in s.users; }
  }

  /** The same for a Google account: its `avatarUrl` changes, the avatar Google supplied stays. */
  lemma UploadGoogleEffect(s: Stores, a: Auth, nowMs: nat, random: real, k: nat)
    requires 0.0 <= random < 1.0
    requires Valid(s) && k < |s.googleUsers| && s.googleUsers[k].id == a.id && Profiles.AuthProvider(a) == "google"
    ensures var f := Filename(nowMs, Nonce(random));
      var g := s.googleUsers[k];
      var out := UploadAvatar(s, Some(a), true, true, nowMs, random);
      && out.reply == AvatarStored(AvatarUrl(f))
      && out.next == s.(uploads := s.uploads + {f}, googleUsers := s.googleUsers[k := g.(profile := g.profile.(avatarUrl := Some(AvatarUrl(f))))])
  {
    assert FindGoogle(s.googleUsers, a.id) == Some(k);
    assert ValidGoogleUser(s.googleUsers[k]) by { assert s.googleUsers[k] in s.googleUsers; }
  }

  lemma UploadLocalKeepsValid(s: Stores, a: Auth, nowMs: nat, random: real, k: nat)
    requires 0.0 <= random < 1.0
    requires Valid(s) && k < |s.users| && s.users[k].id == a.id && Profiles.AuthProvider(a) != "google"
    ensures Valid(UploadAvatar(s, Some(a), true, true, nowMs, random).next)
  {
    UploadLocalEffect(s, a, nowMs, random, k);
    var u := s.users[k];
    var u' := u.(profile := u.profile.(avatarUrl := Some(AvatarUrl(Filename(nowMs, Nonce(random))))));
    var users := s.users[k := u'];
    assert u in s.users;
    UpdateUser(s.users, s.pending, k, u');
    forall v <- users ensures v.id < s.nextId && ValidLocalUser(v) {
      var j :| 0 <= j < |users| && users[j] == v;
      assert j != k ==> v == s.users[j];
    }
  }

  lemma UploadGoogleKeepsValid(s: Stores, a: Auth, nowMs: nat, random: real, k: nat)
    requires 0.0 <= random < 1.0
    requires Valid(s) && k < |s.googleUsers| && s.googleUsers[k].id == a.id && Profiles.AuthProvider(a) == "google"
    ensures Valid(UploadAvatar(s, Some(a), true, true, nowMs, random).next)
  {
    UploadGoogleEffect(s, a, nowMs, random, k);
    var g := s.googleUsers[k];
    var g' := g.(profile := g.profile.(avatarUrl := Some(AvatarUrl(Filename(nowMs, Nonce(random))))));
    var gs := s.googleUsers[k := g'];
    assert g in s.googleUsers;
    UpdateGoogle(s.googleUsers, k, g');
    forall h <- gs ensures h.id < s.nextId && ValidGoogleUser(h) {
      var j :| 0 <= j < |gs| && gs[j] == h;
      assert j != k ==> h == s.googleUsers[j];
    }
  }

  /** Every outcome of an upload keeps the store's invariant. */
  lemma UploadPreservesValid(s: Stores, auth: Option<Auth>, hasFile: bool, processed: bool, nowMs: nat, random: real)
    requires 0.0 <= random < 1.0
    requires Valid(s)
    ensures Valid(UploadAvatar(s, auth, hasFile, processed, nowMs, random).next)
  {
    if auth.Some? && hasFile && processed {
      var a := auth.value;
      if Profiles.AuthProvider(a) == "google" && FindGoogle(s.googleUsers, a.id).Some? {
        UploadGoogleKeepsValid(s, a, nowMs, random, FindGoogle(s.googleUsers, a.id).value);
      } else if Profiles.AuthProvider(a) != "google" && FindUser(s.users, a.id).Some? {
        UploadLocalKeepsValid(s, a, nowMs, random, FindUser(s.users, a.id).value);
      }
    }
  }

  /**
   * After an upload, the profile answer shows the uploaded file: `avatarUrl` takes precedence over
   * the picture Google supplied, whatever profile update follows.
   */
  lemma UploadThenUpdateShowsUpload(s: Stores, a: Auth, nowMs: nat, random: real, k: nat, patch: Profiles.ProfilePatch)
    requires 0.0 <= random < 1.0
    requires Valid(s) && k < |s.googleUsers| && s.googleUsers[k].id == a.id && Profiles.AuthProvider(a) == "google"
    requires ValidProfile(Profiles.Patched(s.googleUsers[k].profile, patch))
    ensures var s1 := UploadAvatar(s, Some(a), true, true, nowMs, random).next;
      var out := Profiles.UpdateProfile(s1, Some(a), patch);
      out.reply.ProfileUpdated? && out.reply.profile.avatarUrl == Some(AvatarUrl(Filename(nowMs, Nonce(random))))
  {
    UploadGoogleEffect(s, a, nowMs, random, k);
    UploadGoogleKeepsValid(s, a, nowMs, random, k);
    var s1 := UploadAvatar(s, Some(a), true, true, nowMs, random).next;
    Profiles.PatchedFields(s1.googleUsers[k].profile, patch);
    Profiles.UpdateGoogleEffect(s1, a, patch, k);
  }
}
