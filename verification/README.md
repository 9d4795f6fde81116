# Email verification codes and sign-in, modelled in Dafny

This project models the authentication core of the WorkWrap platform: the lifecycle of
one-time email verification codes (issue, verify, lockout, expiry sweep), the users table,
the Credentials `authorize` callback that signs a user in by code and creates the account
on first sign-in, the three server actions behind the login and bind-email forms, the form
schemas, and the request middleware that guards account pages.

Every database table is an immutable value (a sequence of rows plus the next serial id).
Every query and every operation is a pure function that returns its result together with
the new tables. The current time `now` is an explicit parameter, in milliseconds.

Modules, one per source file or component:

- `Base`, `Messages`: optional values, instants, and the `errors.*` message keys.
- `Decimal`: `toString()` of non-negative integers, its inverse, and the longest run of leading decimal digits.
- `NumberParsing`: JavaScript's `parseInt` with no radix (section 19.2.5 of ECMAScript 2024), used on the session's user id.
- `Validations`: the zod schemas of `platform/lib/validations/auth.ts`.
- `CodeStore`: the `email_verification_codes` table and the SQL queries run on it.
- `Verification`: `platform/lib/repositories/verification.ts`.
- `VerificationProps`: lifecycle properties that span several calls. This includes the
  invariant that keeps `attempts` at or below 5 along any run whose clock never goes back.
- `Users`: `platform/lib/repositories/users.ts`.
- `AuthConfig`: `authorize` and the `signIn` callback of `platform/auth.ts`.
- `Actions`: `platform/lib/actions/auth.ts`.
- `Proxy`: `platform/proxy/chain.ts`, `platform/proxy/auth.ts` and their composition in `platform/proxy.ts`.

Collaborators outside the model are parameters:

- `draw` is the value of `Math.floor(Math.random() * 900000)`.
- `isEmail` is zod's email-syntax check.
- `dbUp` says whether the database answers.
- `delivered` is the mail dispatcher's answer.
- `hasSession` is what `auth()` found.
- `i18n` is the internationalisation middleware.

bcrypt is an injective hash: `Matches(c, HashCode(c))` holds, and it fails for every other candidate.

## Behaviour the model makes explicit

- The send cooldown counts only rows created strictly after `now − 60 s`. A row created
  exactly 60 seconds ago no longer blocks a new code.
- The sweep deletes rows whose expiry is strictly before `now`. Verification needs an
  expiry strictly after `now`. A row expiring exactly at `now` therefore survives the
  sweep but can no longer be verified (`ExpiryBoundary`).
- Verification looks only at the newest unexpired row of the address. A new code does not
  invalidate older live codes. So repeating a successful verification answers
  `codeExpired` only when the address has no other live row. Otherwise the older row
  becomes the candidate, and the repeat counts a failed attempt on it (`RepeatSeesOlderCode`).
- The fifth wrong code sets a lock 15 minutes long. The locked row still expires five
  minutes after its creation. Once it expires, the sweep deletes it and a new code can be
  issued while the lock would still be running (`LockLapsesWithRecord`). In effect the
  lockout lasts until the row expires.
- `ORDER BY "createdAt" DESC LIMIT 1` leaves ties unordered. The model picks the row with
  the larger id, i.e. the later insert.
- `platform/auth.ts` imports the verification and pool modules from `@/lib/db/...`. The
  model takes them to be `platform/lib/repositories/verification.ts` and `platform/lib/repositories/pool.ts`.

## Model

| member | source | states |
|---|---|---|
| Decimal.Render | platform/lib/repositories/verification.ts:17 | the rendering is a non-empty digit string that starts with '0' only for zero |
| Decimal.ValueOfRender | platform/auth.ts:87 | reading back the decimal rendering of a number gives the number, so the returned string id denotes the user id |
| Decimal.RenderOfValue | platform/lib/repositories/verification.ts:17 | a digit string without leading zeros is the rendering of its own value |
| NumberParsing.ParseInt | platform/lib/actions/auth.ts:203 | `parseInt` of the empty string, or of a string whose first character is not white space, a sign or a digit, is NaN |
| NumberParsing.ParseIntSkipsWhiteSpace | platform/lib/actions/auth.ts:203 | a leading white-space character does not change what `parseInt` reads |
| NumberParsing.ParseIntOfDigits | platform/lib/actions/auth.ts:203 | a non-empty string of decimal digits, leading zeros included, is read as its base-10 value |
| NumberParsing.ParseIntNegated | platform/lib/actions/auth.ts:203 | a leading minus sign negates whatever the rest reads as, and NaN stays NaN |
| NumberParsing.ParseIntOfRender | platform/auth.ts:87 | the decimal rendering of a user id put into the session reads back as that id |
| NumberParsing.ParseIntOfNegative | platform/lib/actions/auth.ts:203 | "-" followed by the rendering of n reads as −n |
| NumberParsing.ParseIntStopsAtNonDigit | platform/lib/actions/auth.ts:203 | reading stops at the first non-digit after a number, except that "x" or "X" after a lone "0" starts a hexadecimal number |
| NumberParsing.ParseIntOfHex | platform/lib/actions/auth.ts:203 | "0x" or "0X" followed by hexadecimal digits reads as their base-16 value |
| NumberParsing.BareHexMarker | platform/lib/actions/auth.ts:203 | "0x" with no digit after it is NaN |
| NumberParsing.ZeroExample | platform/lib/actions/auth.ts:203 | "0" alone reads as 0 |
| NumberParsing.HexExample | platform/lib/actions/auth.ts:203 | "0x1A" and "0X1a" both read as 26 |
| NumberParsing.DecimalExample | platform/lib/actions/auth.ts:203 | "26" reads as 26 |
| NumberParsing.FractionExample | platform/lib/actions/auth.ts:203 | "12.5" reads as 12: the decimal point ends the number |
| Validations.CodeIssues | platform/lib/validations/auth.ts:17-20 | a code has no issues iff it is exactly six ASCII digits; every issue is `errors.codeInvalid`; a wrong length fails both checks |
| Validations.Validate | platform/lib/validations/auth.ts:9-43 | a form passes iff the email is well-formed and non-empty and, for the verify and bind schemas, the code is six digits; an email issue is reported before a code issue |
| Validations.SendSchemaIgnoresCode | platform/lib/validations/auth.ts:25-27 | the send schema's verdict does not depend on the code field |
| Validations.VerifyAndBindSchemasAgree | platform/lib/validations/auth.ts:32-43 | the verify and bind schemas give the same verdict on every form |
| Validations.CodeRejectionMessage | platform/lib/validations/auth.ts:18-20 | when the email passes, every rejection by a code schema carries `errors.codeInvalid` |
| Validations.LeadingZerosAccepted | platform/lib/validations/auth.ts:17-20 | "000123" passes the code schema |
| CodeStore.Matches | platform/lib/repositories/verification.ts:144 | the comparison succeeds exactly when the stored digest is the hash of the candidate |
| CodeStore.Latest | platform/lib/repositories/verification.ts:118-124 | the selected row matches the query and no matching row sorts after it by creation time; None iff no row matches |
| CodeStore.Sweep | platform/lib/repositories/verification.ts:189-193 | the rows kept are exactly those whose expiry is not strictly before now |
| CodeStore.CountCreatedAfter | platform/lib/repositories/verification.ts:51-55 | the count is zero iff no row of the address was created strictly after the given instant |
| CodeStore.SetAttempts | platform/lib/repositories/verification.ts:155-160 | rows with the target id get the new attempts and lock; all other rows are unchanged and the table keeps its length |
| CodeStore.DeleteById | platform/lib/repositories/verification.ts:176-178 | the rows kept are exactly those with a different id |
| CodeStore.SetAttemptsOnlyTarget | platform/lib/repositories/verification.ts:155-160 | on a table keyed by id, the update replaces the target row by its update and keeps every other row |
| Verification.GenerateCode | platform/lib/repositories/verification.ts:16-18 | the code is six ASCII digits with no leading zero, denotes 100000 + draw, and passes the code schema |
| Verification.CleanupExpiredCodes | platform/lib/repositories/verification.ts:189-193 | the sweep keeps exactly the rows, of any address, not expired strictly before now |
| Verification.CheckLocked | platform/lib/repositories/verification.ts:23-43 | a lock is reported iff some row of the address has `lockedUntil > now`; the reported instant is after now |
| Verification.CheckSendCooldown | platform/lib/repositories/verification.ts:48-58 | sending is allowed iff every row of the address was created at or before now − 60 s |
| Verification.CreateVerificationCode | platform/lib/repositories/verification.ts:64-103 | `accountLocked` iff an unswept row of the address is locked; `sendTooFrequent` iff no lock but an unswept row is younger than 60 s; failures leave only the swept table; success appends exactly one row (fresh id, hash of the returned code, created now, expiring now + 5 min, no attempts, no lock) |
| Verification.Candidate | platform/lib/repositories/verification.ts:118-131 | the candidate is an unexpired row of the address that no other unexpired row of the address follows; None iff there is none |
| Verification.CheckCandidate | platform/lib/repositories/verification.ts:135-183 | a running lock refuses and changes nothing; a right code deletes that row and returns it; a wrong code raises that row's attempts by one, answering `tooManyAttempts` with a lock until now + 15 min at the fifth and `codeInvalid` with the lock cleared before |
| Verification.VerifyCode | platform/lib/repositories/verification.ts:108-184 | `codeExpired` iff no unexpired row of the address exists, with the table unchanged; otherwise the candidate is judged as above |
| VerificationProps.IssuePreservesWellFormed | platform/lib/repositories/verification.ts:90-99 | issuing keeps ids unique; the inserted row has no attempts and no lock; every row stays consistent: created in the past, expiring five minutes after creation, at most five attempts, locked exactly at five |
| VerificationProps.VerifyPreservesWellFormed | platform/lib/repositories/verification.ts:147-160 | verifying keeps every row at five attempts or fewer, with a lock exactly at five that outlasts the row's expiry |
| VerificationProps.RunPreservesWellFormed | platform/lib/repositories/verification.ts:8-11 | along any chronological sequence of issues and verifications, no row ever counts more than five attempts |
| VerificationProps.ExpiryBoundary | platform/lib/repositories/verification.ts:120 | a row expiring exactly now survives the sweep yet is never the verification candidate |
| VerificationProps.IssueThenVerify | platform/lib/repositories/verification.ts:90-102 | the code just issued verifies at any time before it expires, returns the inserted row, and leaves the swept table |
| VerificationProps.IssueTwiceWithinCooldown | platform/lib/repositories/verification.ts:81-87 | a second issue within 60 s of a successful one answers `sendTooFrequent` and inserts nothing |
| VerificationProps.LockedAfterTooManyAttempts | platform/lib/repositories/verification.ts:135-141 | for 15 minutes after the fifth failure, every verification is refused with the table unchanged: `accountLocked` while the row lives, `codeExpired` after |
| VerificationProps.LockLapsesWithRecord | platform/lib/repositories/verification.ts:69-78 | once the locked row has expired, a new code is issued although its lock is still running |
| VerificationProps.SingleUse | platform/lib/repositories/verification.ts:176-183 | the verified row is gone, no later verification returns it again, and a repeat answers `codeExpired` when no other live row exists |
| VerificationProps.RepeatSeesOlderCode | platform/lib/repositories/verification.ts:118-124 | with an older live code present, repeating a successful verification counts a failed attempt on the older row instead of answering `codeExpired` |
| VerificationProps.GeneratedCodes | platform/lib/repositories/verification.ts:16-18 | the generator's outputs are exactly the schema-valid codes that do not start with zero |
| Users.GetUserByEmail | platform/lib/repositories/users.ts:19-33 | a row with that email is returned, and null iff no row has it |
| Users.GetUserById | platform/lib/repositories/users.ts:99-113 | the row with that id is returned, and null iff no row has it |
| Users.CreateUser | platform/lib/repositories/users.ts:38-51 | one row is added under an id no existing row uses, carrying the email and name, verified now; looking the id up returns it |
| Users.UpdateUserEmailVerified | platform/lib/repositories/users.ts:56-64 | only the `emailVerified` field of the rows with that id changes |
| Users.UpdateUserEmail | platform/lib/repositories/users.ts:69-78 | only the `email` and `emailVerified` fields of the rows with that id change |
| Users.IsEmailUsedByOtherUser | platform/lib/repositories/users.ts:83-94 | true iff some row has the email under a different id |
| Users.CreateThenFindByEmail | platform/lib/repositories/users.ts:19-51 | after creating a user, looking the email up finds a row |
| Users.UpdateEmailThenGet | platform/lib/repositories/users.ts:69-78 | after the update, the user's row carries the new email, verified now, with id and name kept, and ids stay unique |
| AuthConfig.FindOrCreate | platform/auth.ts:55-84 | an existing user keeps its id and gets `emailVerified` set only if it was null; a new email gets one appended row with no name, verified now, under a fresh id |
| AuthConfig.Authorize | platform/auth.ts:31-100 | a missing field or a store failure returns null with nothing touched; a failed code check returns null with the users table unchanged; success returns the credential email and the user id as a decimal string, with the code consumed |
| AuthConfig.AuthorizeFindsOrCreatesUser | platform/auth.ts:65-89 | after a successful sign-in, the returned id names a verified row carrying the credential email |
| AuthConfig.SignInCallback | platform/auth.ts:111-119 | every sign-in is allowed |
| Actions.SendVerificationCode | platform/lib/actions/auth.ts:31-91 | invalid email: its first issue, nothing created or mailed; store failure: `sendCodeFailed`; refused issue: its reason, nothing mailed; otherwise the code is mailed and the result is success iff delivery succeeds, the row staying either way |
| Actions.UndeliveredCodeStillVerifies | platform/lib/actions/auth.ts:52-74 | when delivery fails the inserted row is not rolled back: the code still verifies within five minutes |
| Actions.SignInWithCredentials | platform/auth.ts:31-52 | sign-in succeeds iff `authorize` returns a user; otherwise the `CredentialsSignin` failure is either returned as the result's error or thrown, as `throwsOnFailure` says; the tables are those `authorize` leaves |
| Actions.SignInMessage | platform/lib/actions/auth.ts:123-153 | `CredentialsSignin` becomes `codeInvalid`, any other error or a throw `loginFailed`, success a redirect |
| Actions.VerifyCode | platform/lib/actions/auth.ts:96-153 | an invalid form returns its first issue with nothing touched; a valid one succeeds iff `authorize` signs the user in; every failure of a valid form reads `codeInvalid` when the framework returns the failure and `loginFailed` when it throws it; the users table changes only on success |
| Actions.VerifyCollapsesFailureReasons | platform/lib/actions/auth.ts:117-153 | expired, locked, too-many-attempts and wrong-code failures all reach the form as the same message: `codeInvalid` when the failure is returned, `loginFailed` when it is thrown |
| Actions.BindEmail | platform/lib/actions/auth.ts:168-244 | no user id: `loginRequired` before any store access; a store failure, or a user id `parseInt` reads as NaN: `bindEmailFailed` with nothing changed; an email held by another user than the one `parseInt` reads: `emailAlreadyUsed` with no attempt counted and no code consumed; the email moves to that user only after the code verifies |
| Actions.BindToUser | platform/lib/actions/auth.ts:198-230 | `emailAlreadyUsed` iff another user holds the email, with nothing changed; success iff not and the code verifies, with the code consumed and the email moved; a failed code check returns its own reason with only the code table changed |
| Actions.BindEmailDependsOnReadId | platform/lib/actions/auth.ts:200-227 | two non-empty user ids that `parseInt` reads alike bind the same way |
| Actions.BindEmailBareHexMarker | platform/lib/actions/auth.ts:200-204 | the user id "0x" reads as NaN, so binding fails with `bindEmailFailed` and nothing changes |
| Actions.BindEmailHexUserId | platform/lib/actions/auth.ts:200-227 | the user id "0x1A" binds exactly as "26" |
| Actions.BindPassesVerifyFailureThrough | platform/lib/actions/auth.ts:216-224 | a failed code check while binding returns its own reason, counts the attempt, and leaves the users table alone |
| Proxy.Chain | platform/proxy/chain.ts:9-19 | the middlewares are called in order with the same request and context until the first non-null response, which is returned; later ones are never called; null iff all return null |
| Proxy.Includes | platform/proxy/auth.ts:13-15 | the test holds iff the needle occurs at some position of the path |
| Proxy.AuthMiddleware | platform/proxy/auth.ts:6-25 | a redirect to /login with `callbackUrl` set to the path is returned iff the path contains "/account" and there is no session; otherwise null |
| Proxy.SubstringProtection | platform/proxy/auth.ts:13-15 | "/en/accounting" is protected, "/en/login" is not, and a session lets "/en/account" through |
| Proxy.Proxy | platform/proxy.ts:8-17 | an unauthenticated account path is redirected without calling the i18n middleware; otherwise the i18n response is returned, or an empty 200 |

## Left out

- Mail delivery (`platform/lib/email/resend.ts`) is the boolean `delivered`. The HTML and
  text templates carry no logic.
- bcrypt's salt and cost are not modelled. The hash is an injective function of the code.
- `Math.random` is the parameter `draw`, not a uniform distribution; the model states which codes can occur, not how often.
- The database clock and the server clock are one `now`. A row's `createdAt` is the insertion time.
- Concurrency is not modelled. In particular, concurrent verifications can both read the
  same `attempts` and both write `attempts + 1`.
- Database failures are modelled only as `dbUp = false`: the store fails before the
  operation's first query, and nothing changes. Failures after some writes are not modelled.
- In `authorize`, `createPool()` at platform/auth.ts:40 runs outside the `try`. A missing
  connection string there throws out of `authorize` to the framework. The model's `dbUp`
  covers only failures inside the `try`, which return null.
- Connection pools, environment variables and module re-exports (`platform/lib/repositories/pool.ts`,
  `platform/lib/repositories/index.ts`, `platform/proxy/middleware.ts`) carry no logic.
- Email-address syntax is zod's and is the parameter `isEmail`.
- Form fields are taken to be present strings. A missing field, which `formData.get` returns as null, is not modelled.
- The outer `catch` of `verifyCode` (`errors.verifyCodeFailed`, platform/lib/actions/auth.ts:154-162)
  catches only exceptions from reading and validating the form. Those are not modelled.
- Whether the identity framework returns a `CredentialsSignin` failure or throws it depends on its version and configuration. The model leaves this open as the parameter `throwsOnFailure` of `SignInWithCredentials` and `VerifyCode`.
- Actions.SignInWithCredentials: failures of the framework other than `CredentialsSignin` (other error kinds) are not generated; `SignInMessage` states their mapping for every value.
- NumberParsing.ParseInt: the result is the exact integer. The rounding of JavaScript numbers
  beyond 2^53, and the database's range check on an integer parameter, are not modelled.
- The GitHub OAuth provider, the database adapter, the `session` callback, and session and
  cookie mechanics belong to the identity framework.
- The i18n middleware (`platform/proxy/i18n.ts`) wraps a library and is the parameter `i18n`.
  The route matcher in `platform/proxy.ts` is framework configuration.
- The redirect URL keeps its path and query. The origin taken from `request.url` is not modelled.
- Pages and components under `platform/app` and `platform/components` render UI only.
