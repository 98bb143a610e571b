# Account identity of the AI support system, modelled in Dafny

This project models how the AI support system creates, finds and authenticates accounts, and how
it changes their profiles. There are two kinds of account:

- **Local accounts** sign up with a username, an email and a password. The signup is first held
  as a *pending signup* until the six-digit code mailed to the user is confirmed.
- **Google accounts** are created by the Google OAuth callbacks. They pick a username afterwards.

The model covers these parts of the server:

- the `User`, `PendingUser` and `GoogleUser` Mongoose schemas: the `trim` and `lowercase` setters,
  `required`, the defaults and the newsletter enum;
- the signup and code-verification routes;
- password login;
- the two Google callbacks and the set-username handler;
- the authentication middleware;
- the profile read and update handlers and the avatar upload.

It also covers two pieces of browser code: the signup form's validation and the masked email on
the profile page.

The three collections and the written avatar files form one value, `Stores.Stores`. Each sequence
is in insertion order, so a `findOne` is the first match. The store's invariant is `Stores.Valid`:

- usernames and emails are unique across local accounts and pending signups together;
- googleIds are unique, and so are the usernames Google accounts have chosen;
- every stored document passes its schema.

Each handler is modelled twice:

- a pure *step function* from a store and a request to a reply and the next store, about which the
  lemmas are proved;
- a method of class `Server.Database`, which holds the collections as fields and updates them as
  the handler does: early answers, `create`, `save`, `findByIdAndDelete`. Each method is proved to
  produce exactly the step function's reply and store, and to keep the invariant.

The middleware, login and the profile read only read the store, so they are modelled as functions
of it.

Modules:

- `Wrappers`, `Collections` and `JsStrings` hold the JavaScript library behaviour the handlers rely
  on: `trim`, `toLowerCase`, `split`, `startsWith`, `toString`, truthiness.
- `Models`, `Tokens` and `Stores` hold the schemas, the token payload and the store.
- `OtpSignup`, `PasswordLogin`, `GoogleIdentity`, `AuthMiddleware`, `Profiles` and `Avatars` hold
  one group of handlers each.
- `ClientForms` holds the two pieces of browser code.
- `Server` holds the imperative database.

Where the schemas and the handlers disagree, the model follows the handlers:

- A username of three or more white-space characters passes the length check of `/signup`. It
  then trims to "", so `PendingUser.create` throws and the answer is 500.
- `/signup` builds its `$or` filters from the raw body. Mongoose casts query filters through the
  schema setters, so the model compares the trimmed username and the lower-cased email with the
  stored values. `/verify-otp` builds its filter from the stored pending record, whose values are
  already normalised.

## Model

| member | source | states |
|---|---|---|
| JsStrings.Trim | server/models/User.mjs:5 | the trimmed string neither starts nor ends with white space and is no longer than the input |
| JsStrings.TrimRemovesSpaceRuns | server/controllers/loginController.mjs:16 | `trim` removes a run of white space on each side and keeps the middle as a contiguous piece of the input |
| JsStrings.TrimBlank | server/controllers/googleSetUsernameController.mjs:25 | a string trims to "" exactly when it is all white space |
| JsStrings.TrimIdempotent | server/models/User.mjs:5 | the `trim` setter applied again to a stored value changes nothing |
| JsStrings.OrElse | server/controllers/googleAuthController.mjs:13-14 | `x \|\| fallback` is never empty when the fallback is not; it is either the fallback or the value itself, and the value whenever that is truthy |
| JsStrings.ToLower | server/models/User.mjs:6 | lower-casing keeps the length, leaves no upper-case letter, and changes only the letters A–Z |
| JsStrings.ToLowerIdempotent | server/models/User.mjs:6 | the `lowercase` setter applied again to a stored value changes nothing |
| JsStrings.SplitJoin | client/src/components/Profile.jsx:176 | joining the pieces of a `split` with the separator gives back the string |
| JsStrings.SplitHead | client/src/components/Profile.jsx:176 | the first piece of a `split` is everything before the first separator, and there is a second piece exactly when the separator occurs |
| JsStrings.SplitOnce | client/src/components/Profile.jsx:176 | with exactly one separator, `split` yields the parts before and after it |
| JsStrings.Repeat | client/src/components/Profile.jsx:180-181 | `"*".repeat(n)` has length n and only stars |
| JsStrings.DecimalString | server/routes/authRoutes.mjs:11 | `toString` of a number is a non-empty digit string without a leading zero that parses back to the number |
| JsStrings.DecimalStringInjective | server/controllers/avatarController.mjs:27 | distinct numbers have distinct decimal strings |
| Passwords.HashMatchesExactly | server/controllers/loginController.mjs:30 | `bcrypt.compare` accepts the password a hash was made from and no other, whatever the salt |
| Models.StoredNameIsTrimmed | server/models/User.mjs:5 | a non-empty trimmed name is a storable username, and trimming leaves a stored username unchanged |
| Models.StoredEmailIsLowered | server/models/User.mjs:6 | a lower-cased non-empty email is storable, and lower-casing leaves a stored email unchanged |
| Models.NewLocalUser | server/models/User.mjs:3-26 | `User.create` succeeds exactly when the trimmed username and the email are non-empty; the account has the trimmed name, the lower-cased email, the given hash and the default profile |
| Models.NewPendingUser | server/models/PendingUser.mjs:3-16 | `PendingUser.create` succeeds exactly when the trimmed username, the email and the code are non-empty, and stores the normalised values |
| Models.NewGoogleUser | server/models/GoogleUser.mjs:3-30 | `GoogleUser.create` succeeds exactly when googleId and email are non-empty; the account has no username, `isUsernameSet` false and the default profile |
| Models.SchemaDefaultsAgree | server/models/GoogleUser.mjs:17-23 | both account kinds start with language "en", timezone "UTC", a weekly newsletter and every notification on |
| Stores.EmptyIsValid | server/models/User.mjs:3-23 | the empty store meets the invariant |
| Stores.FindUser | server/middleware/authMiddleware.mjs:56 | `User.findById` finds an account with that id, or none exactly when no account has it |
| Stores.FindGoogle | server/middleware/authMiddleware.mjs:43 | `GoogleUser.findById` finds a Google account with that id, or none exactly when none has it |
| Stores.FirstLocalHolding | server/routes/authRoutes.mjs:49-51 | the `$or` lookup finds the first account with the email or the username, and finds none exactly when no account has either |
| Stores.FirstHolderFound | server/controllers/loginController.mjs:19-24 | the `$or` lookup returns the first account that matches and no other |
| Stores.FirstPendingHolding | server/routes/authRoutes.mjs:59-61 | the same lookup on the pending signups |
| Stores.FindPending | server/routes/authRoutes.mjs:114 | `findById` on the pending signups finds a record with that id, or none exactly when no record has it |
| Stores.AddPending | server/routes/authRoutes.mjs:73-79 | adding a pending signup whose name, email and id are all free keeps the local namespace unique |
| Stores.RemovePending | server/routes/authRoutes.mjs:126 | deleting a pending signup keeps the namespace unique, and no remaining record has its id |
| Stores.Promote | server/routes/authRoutes.mjs:141-147 | turning a pending signup into an account with the same name and email keeps the namespace unique |
| Stores.UpdateUser | server/controllers/profileController.mjs:50 | saving an account with unchanged id, username and email keeps the namespace unique |
| Stores.AddGoogle | server/controllers/googleAuthController.mjs:26-32 | appending a Google account without a username, whose id and googleId are new, keeps googleIds and usernames unique |
| Stores.UpdateGoogle | server/controllers/googleSetUsernameController.mjs:36-38 | rewriting a Google account keeps googleIds unique and chosen usernames unique, as long as a username goes only from unset to a free name |
| Collections.RemoveAtLast | server/routes/authRoutes.mjs:147 | deleting the record just appended gives back the collection as it was |
| OtpSignup.GenerateOtp | server/routes/authRoutes.mjs:10-11 | the code has six decimal digits and denotes a number from 100000 to 999999 |
| OtpSignup.GenerateOtpCoversRange | server/routes/authRoutes.mjs:10-11 | every code from 100000 to 999999 can be drawn |
| OtpSignup.SignupValidationOrder | server/routes/authRoutes.mjs:25-46 | before the store is read, the checks run in order: a missing field, then mismatched passwords, then a short username, then a short password; each answers 400 and changes nothing |
| OtpSignup.Signup | server/routes/authRoutes.mjs:21-94 | `/signup` from a store and a request to the reply and the next store; its behaviour is stated by SignupValidationOrder, SignupEffect, SignupAppendsOnePending and SignupPreservesValid |
| OtpSignup.SignupRejects | server/routes/authRoutes.mjs:21-94 | a signup that is not admissible answers with an error and leaves the store unchanged |
| OtpSignup.SignupEffect | server/routes/authRoutes.mjs:21-94 | the store changes exactly when the signup is admissible, and 201 is answered exactly when it is admissible and the mail went out |
| OtpSignup.SignupAppendsOnePending | server/routes/authRoutes.mjs:69-89 | an admissible signup appends one pending record and changes nothing else. The record has a fresh id, the trimmed name, the lower-cased email, a hash the password matches, the drawn code and an expiry ten minutes later |
| OtpSignup.SignupPastValidation | server/routes/authRoutes.mjs:48-94 | past the field checks, the only answers are the two conflicts, 500 and 201 |
| OtpSignup.SignupConflictOrder | server/routes/authRoutes.mjs:48-67 | a clash with an account is reported before a clash with a pending signup |
| OtpSignup.BlankUsernameIsServerError | server/routes/authRoutes.mjs:36-92 | a username of three or more spaces passes the length check, fails `required` after trimming, and answers 500 without storing anything |
| OtpSignup.SignupPreservesValid | server/routes/authRoutes.mjs:21-94 | every outcome of a signup keeps the store's invariant |
| OtpSignup.FailedMailBlocksRetry | server/routes/authRoutes.mjs:73-92 | when sending the code fails, the answer is 500 but the pending record stays, so resending the same signup is refused as pending |
| OtpSignup.DuplicatePendingEmailRejected | server/routes/authRoutes.mjs:58-67 | a second signup with the same email is refused while the first is pending |
| OtpSignup.VerifyUnknownChangesNothing | server/routes/authRoutes.mjs:108-119 | a missing field or an unknown pending id answers 400 and changes nothing |
| OtpSignup.VerifyOtp | server/routes/authRoutes.mjs:104-164 | `/verify-otp`: field check, lookup, code check, then `Redeem`; its behaviour is stated by the Verify lemmas |
| OtpSignup.Redeem | server/routes/authRoutes.mjs:125-159 | the expiry check, the second uniqueness check and then `Admit`, for a record whose code matched |
| OtpSignup.Admit | server/routes/authRoutes.mjs:141-159 | `User.create`, the deletion of the record and the welcome mail; VerifyPromotes states the outcome |
| OtpSignup.VerifyWrongOtpKeepsPending | server/routes/authRoutes.mjs:121-123 | a wrong code answers "Invalid OTP." and keeps the record, even when it has expired |
| OtpSignup.VerifyExpiredDeletes | server/routes/authRoutes.mjs:125-128 | the right code after the deadline answers 400 and deletes exactly that record |
| OtpSignup.VerifyNeverConflicts | server/routes/authRoutes.mjs:130-139 | in a valid store, the second uniqueness check never fires, and 500 is answered only when the welcome mail fails |
| OtpSignup.PendingIsFree | server/routes/authRoutes.mjs:130-145 | in a valid store, no account holds a pending record's name or email, and `create` accepts the record |
| OtpSignup.VerifyPromotes | server/routes/authRoutes.mjs:141-159 | the right code in time creates an account with the record's name, email and hash and deletes the record; the uploads stay and the next id advances by one. It answers with the new id, name and email when the mail went out |
| OtpSignup.VerifyPreservesValid | server/routes/authRoutes.mjs:104-164 | every outcome of a verification keeps the store's invariant |
| OtpSignup.SignupThenVerify | server/routes/authRoutes.mjs:21-164 | a signup, then a verification with the mailed code in time, creates one account with the trimmed name and the lower-cased email, and leaves the pending signups as they were before the signup |
| PasswordLogin.LoginSucceedsExactly | server/controllers/loginController.mjs:10-50 | a login succeeds exactly when the first account matching the trimmed identifier accepts the password. The match is on the lower-cased identifier as email or the identifier as username. The token names that account, and the answer shows its id, username and email |
| PasswordLogin.Login | server/controllers/loginController.mjs:5-55 | `loginUser` as a function of the store; LoginSucceedsExactly, FailuresIndistinguishable and LoginRequiresFields state its answers |
| PasswordLogin.FailuresIndistinguishable | server/controllers/loginController.mjs:26-33 | an unknown identifier and a wrong password get the same answer |
| PasswordLogin.LoginIgnoresOtherStores | server/controllers/loginController.mjs:19-24 | login reads only the local accounts |
| PasswordLogin.PaddedEmailNeverMatches | server/controllers/loginController.mjs:16-24 | a stored email that starts with white space can never be matched by a login |
| PasswordLogin.LoginRequiresFields | server/controllers/loginController.mjs:10-14 | a missing identifier or password answers 400 whatever the store holds |
| GoogleIdentity.ProfileEmail | server/controllers/googleAuthController.mjs:12 | there is an email exactly when the first profile email is present and non-empty; it is lower-cased |
| GoogleIdentity.WithGoogleId | server/controllers/googleAuthController.mjs:22 | `findOne({ googleId })` finds the first account with that googleId, or none exactly when none has it |
| GoogleIdentity.WithEmail | server/controllers/googleLoginController.mjs:34 | `findOne({ email })` finds the first account with that email, or none exactly when none has it |
| GoogleIdentity.WithUsername | server/controllers/googleSetUsernameController.mjs:29 | no Google account is found exactly when none has the name as its username |
| GoogleIdentity.LocalWithUsername | server/controllers/googleSetUsernameController.mjs:28 | no local account is found exactly when none has the name |
| GoogleIdentity.Refresh | server/controllers/googleAuthController.mjs:33-39 | the refresh succeeds exactly when the refreshed document saves, and then only that account is replaced |
| GoogleIdentity.NoEmailTouchesNothing | server/controllers/googleAuthController.mjs:16-19 | without a usable email, both Google handlers redirect to `google_no_email` and change nothing |
| GoogleIdentity.CreateAccount | server/controllers/googleAuthController.mjs:24-32 | `GoogleUser.create` followed by the set-username redirect, or `google_error` when create fails |
| GoogleIdentity.GoogleCallback | server/controllers/googleAuthController.mjs:7-49 | `googleCallbackHandler`; its behaviour is stated by the Callback lemmas |
| GoogleIdentity.GoogleLogin | server/controllers/googleLoginController.mjs:4-91 | `googleLoginHandler`; its behaviour is stated by LoginMatchOrder, LoginKeepsGoogleIds, LoginTokenOnlyWithUsername and LoginPreservesValid |
| GoogleIdentity.SetGoogleUsername | server/controllers/googleSetUsernameController.mjs:8-49 | `setGoogleUsername`; its behaviour is stated by SetUsernameRefusals, UsernameSetOnce, UsernameAssignment and SetUsernamePreservesValid |
| GoogleIdentity.CallbackNeverIssuesToken | server/controllers/googleAuthController.mjs:7-49 | the first callback always redirects and never hands out a token |
| GoogleIdentity.CallbackIgnoresEmailMatches | server/controllers/googleAuthController.mjs:21-32 | with no account for the googleId, the callback appends a new account even when the email is taken, and redirects to set-username with its id |
| GoogleIdentity.EmptyGoogleIdIsError | server/controllers/googleAuthController.mjs:24-48 | an empty googleId fails `required`: `google_error`, nothing stored |
| GoogleIdentity.RefreshEffect | server/controllers/googleAuthController.mjs:33-39 | a refresh overwrites email and name, fills the avatar only when it was empty, and leaves every other field and account alone |
| GoogleIdentity.AvatarFirstWriteWins | server/controllers/googleLoginController.mjs:57-60 | once an account has an avatar, no Google callback or login changes it |
| GoogleIdentity.CallbackPreservesValid | server/controllers/googleAuthController.mjs:7-49 | every outcome of the callback keeps the store's invariant |
| GoogleIdentity.CreatePreservesValid | server/controllers/googleAuthController.mjs:24-32 | creating an account for a new googleId keeps the invariant, whether or not `create` succeeds |
| GoogleIdentity.RefreshPreservesValid | server/controllers/googleAuthController.mjs:33-39 | a saved refresh with a lower-cased email keeps the invariant |
| GoogleIdentity.CallbackTwiceCreatesAtMostOne | server/controllers/googleAuthController.mjs:21-39 | repeating the callback with the same profile creates at most one account |
| GoogleIdentity.CallbackRecordsGoogleId | server/controllers/googleAuthController.mjs:21-43 | one callback adds at most one account and removes none; an added account, and the account behind a set-username redirect, carries the profile's googleId |
| GoogleIdentity.CallbackForKnownIdAddsNone | server/controllers/googleAuthController.mjs:22-39 | a callback for a googleId that already has an account adds none |
| GoogleIdentity.CallbacksForOneGoogleIdCreateAtMostOne | server/controllers/googleAuthController.mjs:21-39 | two callbacks with profiles sharing a googleId create at most one account between them, and none the second time once the first reached set-username |
| GoogleIdentity.LoginMatchOrder | server/controllers/googleLoginController.mjs:28-36 | the login finds an account exactly when one has the googleId or the email, and prefers the googleId |
| GoogleIdentity.LoginKeepsGoogleIds | server/controllers/googleLoginController.mjs:28-60 | a Google login adds at most one account and never changes a googleId |
| GoogleIdentity.LoginTokenOnlyWithUsername | server/controllers/googleLoginController.mjs:38-85 | a token is handed out exactly when an existing account with a username was found and saved; the token carries that account |
| GoogleIdentity.SessionTokenClaims | server/controllers/googleLoginController.mjs:73-81 | the token carries userId, provider "google" and the username, for seven days |
| GoogleIdentity.LoginPreservesValid | server/controllers/googleLoginController.mjs:4-91 | every outcome of a Google login keeps the store's invariant |
| GoogleIdentity.UsernameSetOnce | server/controllers/googleSetUsernameController.mjs:21-23 | an account whose username is set answers 400 and keeps it |
| GoogleIdentity.SetUsernameRefusals | server/controllers/googleSetUsernameController.mjs:12-19 | a missing pendingId or username answers 400 and an unknown id 404, in that order, and neither changes the store |
| GoogleIdentity.UsernameAssignment | server/controllers/googleSetUsernameController.mjs:8-44 | assignment succeeds exactly when the account has no username and no local or Google account holds the trimmed name. On success only that account changes; on failure nothing does |
| GoogleIdentity.BlankNameStoredEmpty | server/controllers/googleSetUsernameController.mjs:12-38 | a name of white space only passes the presence check and is stored as "" |
| GoogleIdentity.SetUsernamePreservesValid | server/controllers/googleSetUsernameController.mjs:8-48 | every outcome of set-username keeps the store's invariant |
| GoogleIdentity.CallbackThenNameThenLogin | server/controllers/googleLoginController.mjs:65-85 | a callback, a free name, then a login yields a token for the new account carrying the trimmed name |
| GoogleIdentity.SignupIgnoresGoogleNames | server/routes/authRoutes.mjs:49-67 | a local signup is admitted even when a Google account holds the same username |
| GoogleIdentity.SetUsernameIgnoresPending | server/controllers/googleSetUsernameController.mjs:28-33 | a Google account can take a name that a pending signup holds |
| AuthMiddleware.BearerPiece | server/middleware/authMiddleware.mjs:18 | the piece after "Bearer " contains no space |
| AuthMiddleware.BearerPieceIsSecondWord | server/middleware/authMiddleware.mjs:17-18 | the header token is the second space-separated word: "Bearer t" and "Bearer t rest" both yield t, for any t without spaces |
| AuthMiddleware.RequestToken | server/middleware/authMiddleware.mjs:14-23 | a token that is found is never empty |
| AuthMiddleware.ExtractToken | server/middleware/authMiddleware.mjs:14-19 | the step-by-step token lookup finds exactly the token the request presents |
| AuthMiddleware.ClaimedId | server/middleware/authMiddleware.mjs:34 | an id is claimed exactly when the payload carries one under `userId`, `userID` or `id`; it is one of those, and `userId` wins when present |
| AuthMiddleware.Resolve | server/middleware/authMiddleware.mjs:33-66 | steps 3 and 4 of the middleware, from a verified payload to `req.auth` or a 401; NoIdRefused, DeletedAccountRefused, ProviderDispatch and the TokenResolves lemmas state its answers |
| AuthMiddleware.Authenticate | server/middleware/authMiddleware.mjs:11-71 | the whole middleware, with `jwt.verify` as a parameter; LoginThenAuthenticate and OtherSchemesIgnored state its answers |
| AuthMiddleware.CookieBeforeHeader | server/middleware/authMiddleware.mjs:15-17 | a cookie token wins whatever the headers say |
| AuthMiddleware.BearerRoundTrip | server/middleware/authMiddleware.mjs:16-19 | without a cookie, the header "Bearer t" yields exactly t, for any t without spaces |
| AuthMiddleware.OtherSchemesIgnored | server/middleware/authMiddleware.mjs:17-23 | without a cookie, a header with another scheme presents no token and the request gets 401 |
| AuthMiddleware.NoIdRefused | server/middleware/authMiddleware.mjs:37-39 | a payload without an id is refused whatever the store holds |
| AuthMiddleware.DeletedAccountRefused | server/middleware/authMiddleware.mjs:42-57 | a token whose account is not in the store its provider selects is refused |
| AuthMiddleware.ProviderDispatch | server/middleware/authMiddleware.mjs:35-56 | only the exact provider "google" selects the Google accounts; anything else resolves against the local ones |
| AuthMiddleware.LoginTokenResolves | server/middleware/authMiddleware.mjs:56-64 | the token of a password login resolves to that account, with provider "local" |
| AuthMiddleware.GoogleTokenResolves | server/middleware/authMiddleware.mjs:42-52 | the token of a Google login resolves to that Google account |
| AuthMiddleware.LoginThenAuthenticate | server/middleware/authMiddleware.mjs:11-71 | a password login, then a request presenting the issued token, is authenticated as the account that logged in |
| Profiles.FindUserByPayload | server/controllers/profileController.mjs:9-17 | the lower-cased provider "google" selects the Google accounts and anything else the local ones; a found record has the payload's id, and nothing is found exactly when the payload has no id or no record in the selected collection has it |
| Profiles.PayloadId | server/controllers/profileController.mjs:11 | an id is read exactly when the payload carries one under `userId`, `id` or `userID`; it is one of those, `userId` first, then `id`, then `userID` |
| Profiles.PayloadLookupDiverges | server/controllers/profileController.mjs:11-12 | this lookup and the middleware disagree: provider "Google" selects Google accounts here only, and `id` is read before `userID` here only |
| Profiles.GetProfile | server/controllers/profileController.mjs:19-28 | `getProfile` as a function of `req.auth`; what a caller gets end to end is stated by `LoginTokenShowsProfile` and `SessionTokenShowsProfile` |
| Profiles.LoginTokenShowsProfile | server/controllers/profileController.mjs:19-28 | a request presenting the token of a password login passes the middleware, and `getProfile` answers that local account's identity with provider "local" |
| Profiles.SessionTokenShowsProfile | server/controllers/profileController.mjs:19-28 | a request presenting the session token of a Google login passes the middleware, and `getProfile` answers that Google account's identity, avatar included |
| Profiles.Normalized | server/controllers/profileController.mjs:53-64 | the answer passes id, username, email, displayName, the preferences and the dispatched provider through unchanged; it never shows an empty avatar URL, language or timezone; `avatarUrl` takes precedence over `avatar`, then null |
| Profiles.UpdateProfile | server/controllers/profileController.mjs:30-71 | `updateProfile`; its behaviour is stated by UpdateRefusals, BadNewsletterRefused, the Effect lemmas and UpdatePreservesValid |
| Profiles.PatchedFields | server/controllers/profileController.mjs:42-48 | each given field takes the given value, each omitted one keeps its value, preference keys merge key by key, and `avatarUrl` never changes |
| Profiles.PatchIdentityAndIdempotent | server/controllers/profileController.mjs:42-48 | an empty body changes nothing, and the same update twice equals it once |
| Profiles.UpdateRefusals | server/controllers/profileController.mjs:32-40 | no identity gives 401 and an unknown account gives 404, and neither changes anything |
| Profiles.BadNewsletterRefused | server/controllers/profileController.mjs:46-50 | a newsletter value outside the enum changes nothing, and the answer is never a success |
| Profiles.UpdateLocalEffect | server/controllers/profileController.mjs:38-66 | a successful update rewrites only that local account's profile, with the patch applied, and answers the normalised account |
| Profiles.UpdateGoogleEffect | server/controllers/profileController.mjs:38-66 | the same for a Google account; its googleId, username and avatar stay |
| Profiles.UpdateLocalKeepsValid | server/controllers/profileController.mjs:38-50 | a successful update of a local account keeps the invariant |
| Profiles.UpdateGoogleKeepsValid | server/controllers/profileController.mjs:38-50 | a successful update of a Google account keeps the invariant |
| Profiles.UpdatePreservesValid | server/controllers/profileController.mjs:30-71 | every outcome of a profile update keeps the store's invariant |
| Avatars.Nonce | server/controllers/avatarController.mjs:27 | the rounded random number is at most 10^9 |
| Avatars.Filename | server/controllers/avatarController.mjs:27 | the file name ends in ".webp" and contains no "/" |
| Avatars.AvatarUrlNamesUpload | server/controllers/avatarController.mjs:27-38 | the public URL names one upload: after the avatar directory it is a single path segment, and two uploads share a URL exactly when they share the millisecond and the nonce |
| Avatars.FilenameInjective | server/controllers/avatarController.mjs:27 | two uploads get the same file name exactly when they have the same millisecond and the same nonce |
| Avatars.UploadAvatar | server/controllers/avatarController.mjs:16-55 | `uploadAvatar`; its behaviour is stated by UploadRefusals, MissingAccountKeepsFile, the Effect lemmas and UploadPreservesValid |
| Avatars.UploadRefusals | server/controllers/avatarController.mjs:18-35 | no identity gives 401, no file gives 400, a failed processing gives 500, in that order, and none changes the store |
| Avatars.MissingAccountKeepsFile | server/controllers/avatarController.mjs:27-45 | when the account is gone, the answer is 404 but the written file stays, referenced by no account |
| Avatars.UploadLocalEffect | server/controllers/avatarController.mjs:41-50 | a successful upload records the file and sets only that local account's `avatarUrl`, and answers with the URL |
| Avatars.UploadGoogleEffect | server/controllers/avatarController.mjs:41-50 | the same for a Google account; the avatar Google supplied stays |
| Avatars.UploadLocalKeepsValid | server/controllers/avatarController.mjs:41-48 | a successful upload for a local account keeps the invariant |
| Avatars.UploadGoogleKeepsValid | server/controllers/avatarController.mjs:41-48 | a successful upload for a Google account keeps the invariant |
| Avatars.UploadPreservesValid | server/controllers/avatarController.mjs:16-55 | every outcome of an upload keeps the store's invariant |
| Avatars.UploadThenUpdateShowsUpload | server/controllers/profileController.mjs:58 | after an upload, any later profile update answers with the uploaded URL, not Google's picture |
| ClientForms.EmailTestMatchesPattern | client/src/components/Signup.jsx:31 | the matcher accepts exactly the strings `/^\S+@\S+\.\S+$/` describes |
| ClientForms.ValidateForm | client/src/components/Signup.jsx:24-41 | `validateForm`, its checks in source order; FormAccepted states when it passes |
| ClientForms.FormAccepted | client/src/components/Signup.jsx:24-41 | the form passes exactly when all fields are filled, the username has at least 3 and the password at least 6 characters, the email has the pattern's shape and the passwords agree |
| ClientForms.SubmitRequest | client/src/components/Signup.jsx:43-58 | a request is sent exactly when the form passes |
| ClientForms.SubmittedFormPassesServerChecks | client/src/components/Signup.jsx:43-58 | the server never rejects a submitted form for a missing field, mismatched passwords or a short value |
| ClientForms.ClientAndServerOrderDiffer | client/src/components/Signup.jsx:24-41 | a short username with mismatched passwords is a length error in the browser but a mismatch on the server |
| ClientForms.EmailShapeOnlyOnClient | client/src/components/Signup.jsx:31-33 | the server admits an email the form would refuse |
| ClientForms.MaskLocal | client/src/components/Profile.jsx:179-181 | the masked local part keeps the local part's length |
| ClientForms.MaskEmail | client/src/components/Profile.jsx:172-184 | a falsy email shows as "", a revealed email shows unchanged, and a non-empty email never masks to "" |
| ClientForms.MaskSingleAt | client/src/components/Profile.jsx:172-184 | for an email with one "@", the mask keeps the length, the "@", the domain and the first two characters of a local part longer than two, and stars the rest of the local part |
| ClientForms.MaskFailsOpen | client/src/components/Profile.jsx:176-177 | an email without "@", or one starting with it, is shown unmasked |
| ClientForms.MaskFailsOpenOnEmptyDomain | client/src/components/Profile.jsx:176-177 | an email whose piece after the first "@" is empty ("a@", "a@@b") is also shown unmasked |
| ClientForms.MaskDropsAfterSecondAt | client/src/components/Profile.jsx:176-183 | with a second "@", everything after it disappears from the masked text |
| Server.Database.constructor | server/models/User.mjs:25 | a new database is empty and valid |
| Server.Database.Signup | server/routes/authRoutes.mjs:21-94 | the handler's reply and new collections are exactly those of `OtpSignup.Signup`, and the invariant is kept |
| Server.Database.AdmitPending | server/routes/authRoutes.mjs:48-94 | the same, for the part after the field checks |
| Server.Database.VerifyOtp | server/routes/authRoutes.mjs:104-164 | the handler's reply and new collections are exactly those of `OtpSignup.VerifyOtp`, and the invariant is kept |
| Server.Database.Redeem | server/routes/authRoutes.mjs:125-159 | the expiry, conflict and create steps do exactly what `OtpSignup.Redeem` describes |
| Server.Database.CreateAccount | server/routes/authRoutes.mjs:141-159 | `create`, the deletion and the mail do exactly what `OtpSignup.Admit` describes |
| Server.Database.Promote | server/routes/authRoutes.mjs:141-147 | the account is appended, the pending record removed and the id counter advanced, and nothing else changes |
| Server.Database.CreateGoogleAccount | server/controllers/googleAuthController.mjs:24-32 | the creation does exactly what `GoogleIdentity.CreateAccount` describes |
| Server.Database.RefreshGoogleAccount | server/controllers/googleAuthController.mjs:33-39 | the refresh and `save` do exactly what `GoogleIdentity.Refresh` describes |
| Server.Database.GoogleCallback | server/controllers/googleAuthController.mjs:7-49 | the handler's reply and new collections are exactly those of `GoogleIdentity.GoogleCallback`, and the invariant is kept |
| Server.Database.GoogleLogin | server/controllers/googleLoginController.mjs:4-91 | the handler's reply and new collections are exactly those of `GoogleIdentity.GoogleLogin`, and the invariant is kept |
| Server.Database.SetGoogleUsername | server/controllers/googleSetUsernameController.mjs:8-48 | the handler's reply and new collections are exactly those of `GoogleIdentity.SetGoogleUsername`, and the invariant is kept |
| Server.Database.ClaimUsername | server/controllers/googleSetUsernameController.mjs:25-44 | the same, once the account is found and has no name yet |
| Server.Database.UpdateProfile | server/controllers/profileController.mjs:30-71 | the handler's reply and new collections are exactly those of `Profiles.UpdateProfile`, and the invariant is kept |
| Server.Database.PatchFields | server/controllers/profileController.mjs:42-48 | the field-by-field assignments compute `Profiles.Patched` |
| Server.Database.UploadAvatar | server/controllers/avatarController.mjs:16-55 | the handler's reply, written files and collections are exactly those of `Avatars.UploadAvatar`, and the invariant is kept |

## Left out

- Exceptions from malformed ObjectIds (`CastError` in `findById`) are not modelled. Ids are
  natural numbers, and a missing or falsy id is `None`.
- Sending mail is not modelled. Whether the code or welcome mail went out is the parameter
  `mailSent`; a failed send is the 500 the handler answers.
- Clocks and randomness are parameters: `now` and `nowMs`, the draw behind the code and the avatar
  nonce (a real in [0, 1) as `Math.random` returns), and bcrypt's salt.
- bcrypt is an ideal hash: `compare` accepts exactly the hashed password. Its 72-byte truncation
  and the cost factor are not modelled.
- `jwt.sign` is the payload with its lifetime. `jwt.verify` is a function parameter that returns
  the payload of a genuine, unexpired token; signatures and expiry are not modelled.
- Image processing (`multer`, `sharp`), the file system and the directory creation are left out.
  Whether processing succeeded is the parameter `processed`, and a written file is its name added
  to `uploads`.
- Requests run one at a time. Interleavings of concurrent requests are not modelled, and neither
  are the unique indexes that would reject a racing duplicate.
- String lengths count UTF-16 code units in JavaScript and characters here. Non-string JSON values
  in request bodies are not modelled.
- `toLowerCase` is modelled on the ASCII letters only.
- `null` values inside `notificationPrefs` are not modelled; a key is either present with a value
  of the right type or absent.
- The local schema has no `provider` field, so a local account's provider is always "local".
- Route wiring, CORS, cookies' parsing, `getMe` and the passport strategy setup are not part of
  this model. `authController.mjs` and `passportConfig.mjs` are not part of this model.
- Redirect targets are datatypes. The `FRONTEND_URL` prefix and the query-string formatting are
  not modelled.
- The middleware, password login and the profile read change nothing, so they are functions of the
  store, not methods of `Server.Database`.
- `findUserByPayload` is never called by the handlers. It is modelled and compared with the
  middleware, but no handler uses it.
