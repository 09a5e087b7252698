# Phone verification for NodeBB, modelled in Dafny

This project models the server side of the NodeBB phone-verification plugin
(`library.js`). The plugin:

- issues a six-digit code for an Israeli mobile number;
- stores an unsalted SHA-256 digest of the code in a key-value store with expiry times;
- counts wrong guesses and blocks the number after the third;
- rate-limits code requests per client IP address;
- remembers for ten minutes that a phone passed verification, so the
  registration hooks can bind the phone to the new account;
- keeps a registry that maps each phone to its user and each user to their
  profile phone.

The model is one sequential state machine over pure functions. Every
operation takes the state and an explicit clock `now` in milliseconds, and
returns its result together with the new state.

The host store is a map from key to `Entry(value, expiresAt)`. An entry is
live while `now < expiresAt`; after that, reads do not see it. This is how
`pexpireAt` is read here.

Each host input that comes from outside becomes a parameter:

| source input | model parameter |
|---|---|
| `crypto.randomBytes(3)` | a `RandomDraw` below 2^24 |
| SHA-256 | a function `hash: string -> string`; where a proof needs distinct codes to have distinct digests, it assumes `Codes.Injective(hash)` |
| `User.isAdministrator` | a boolean |
| the slug lookup | a resolved uid, 0 when not found |
| the `showPhone` profile flag | a map |
| the host's range query in `userDelete` | the list of phones it returned |

A request value that may be missing or of any JavaScript type is an
`Input`: `Absent`, `Text(s)` or `NonText(truthy)`. Only the truthiness of
a non-string value matters to the code.

## Modules

| module | file | contents |
|---|---|---|
| `PhoneFormat` | `phone_format.dfy` | normalisation and validation |
| `Codes` | `codes.dfy` | code generation, decimal value of a digit string, spoken form |
| `TtlStore` | `ttl_store.dfy` | live entries and reads |
| `Verification` | `verification.dfy` | the code record, the checks in the order `verifyCode` makes them, the lockout, and the record invariant |
| `IpLimiter` | `ip_limiter.dfy` | the fixed-window per-IP counter |
| `VerifiedMarker` | `verified_marker.dfy` | the ten-minute "verified" marker |
| `PhoneRegistry` | `phone_registry.dfy` | `phone:uid`, `users:phone` and the profile fields |
| `Plugin` | `plugin.dfy` | the request flows over the whole state, a whole-state invariant over every chronological run, end-to-end scenarios, and the profile flow with its corrected send step |
| `Policies` | `policies.dfy` | posting gate, view, update and visibility permissions, pagination of the administrators' user list, API-key masking |
| `VoiceTemplate` | `voice_template.dfy` | the text of the voice message, including the `$` patterns that `replace` expands in a replacement |
| `Wrappers`, `Errors` | `wrappers.dfy`, `errors.dfy` | `Option`/`Result` and the error kinds of the replies |

## Behaviour of the code that a reader may not expect

In each case below the model follows the code.

- **Changing a number leaves the old one bound.**
  - A user can end up with more than one phone in `phone:uid`.
  - `savePhoneToUser` never removes a user's previous phone from `phone:uid`, so the user keeps it.
  - `PhoneRegistry.PreviousPhoneStaysBound` proves that the old number stays bound to the user and is refused to anyone else.
- **Deleting a user releases only one phone.**
  - `userDelete` releases only the first phone the host query returns.
  - `PhoneRegistry.DeleteReleasesOnlyFirst` proves it.
- **Who may see a phone.**
  - Viewing a phone is allowed to the owner, an administrator, or anyone when the owner made it public.
  - Changing the visibility is allowed to the owner alone, not to administrators.
- **No force-override.**
  - There is no force-override bind; a taken phone is always refused.
- **Codes are not uniform.**
  - The codes are not equally likely, and nothing in `generateVerificationCode` corrects for it.
  - `readUIntBE(0, 3) % 1000000` maps 2^24 draws onto one million codes.
  - A code below 777216 comes from seventeen draws; any other code comes from sixteen.
  - `Codes.GenerateCodeBias` proves these counts.
- **`apiInitiateCall` is not rate-limited and reveals the code.**
  - It skips the per-address limiter and puts the plain code in its JSON reply.
  - `Plugin.InitiateCallSkipsIpLimit` proves that the revealed code verifies even for an address `apiSendCode` refuses.
- **`apiVerifyUserPhone` ignores the marker.**
  - Only the owner may call it; administrators are refused.
  - It verifies the phone stored in the profile and marks the profile verified directly, without a "verified" marker.

## Model

| member | source | states |
|---|---|---|
| `PhoneFormat.Strip` | library.js:44 | deleting every `-` and `\s` character leaves none and never lengthens the string |
| `PhoneFormat.Normalize` | library.js:42-45 | an empty or non-string input gives `""`; otherwise the stripped string, with no separators |
| `PhoneFormat.Validate` | library.js:35-40 | true exactly for a string whose stripped form is `05` and eight more digits; a valid phone is truthy and normalises to ten digits |
| `PhoneFormat.StripAppend` | library.js:44 | stripping distributes over concatenation |
| `PhoneFormat.StripFixesExactlyClean` | library.js:44 | a string is its own stripped form exactly when it has no separators |
| `PhoneFormat.NormalizeIdempotent` | library.js:42-45 | normalising twice is normalising once |
| `PhoneFormat.SeparatorInsensitive` | library.js:42-45 | inserting a separator anywhere does not change the normal form |
| `PhoneFormat.ValidateAfterNormalize` | library.js:35-45 | validating the normal form agrees with validating the input |
| `PhoneFormat.ValidNormalForm` | library.js:35-45 | a valid phone's normal form is ten digits starting `05` |
| `PhoneFormat.StripBlank` | library.js:44 | a string of `\s` characters only strips to the empty string |
| `PhoneFormat.ValidIsNotBlank` | library.js:35-40 | a valid phone is a string that `trim` does not empty |
| `Codes.ToDecimal` | library.js:50 | `toString` of a number: digits without leading zero whose value is the number |
| `Codes.PadStart` | library.js:50 | `padStart`: the string right-aligned in the width, filled on the left |
| `Codes.GenerateCode` | library.js:47-51 | six digits whose value is the draw modulo 1000000 |
| `Codes.GenerateCodeCoversAllCodes` | library.js:47-51 | every six-digit code is produced by some draw |
| `Codes.GenerateCodePeriodic` | library.js:49 | draws one million apart give the same code |
| `Codes.GenerateCodeBias` | library.js:47-51 | the draws that give a code are exactly its value plus multiples of one million below 2^24, in increasing order: seventeen of them for a code below 777216, sixteen otherwise |
| `Codes.ValueInjective` | library.js:50 | equal-length digit strings with equal value are equal |
| `Codes.DecimalLengthBound` | library.js:49-50 | a number below one million has at most six digits |
| `Codes.LeadingZerosKeepValue` | library.js:50 | left padding with zeros keeps the value |
| `Codes.FormatForSpeech` | library.js:57-59 | the digits at even positions, single spaces between them |
| `Codes.SpeechRoundTrip` | library.js:57-59 | the even positions of the spoken form give back the code |
| `TtlStore.Get` | library.js:175 | a read sees a value exactly while its entry is live |
| `Verification.RemainingMinutes` | library.js:159 | `Math.ceil` of a positive duration in minutes |
| `Verification.SaveCode` | library.js:149-167 | an active block is refused with the minutes left and changes nothing; otherwise a fresh record with zero attempts and a five-minute code, kept twenty minutes, and nothing else changes |
| `Verification.VerifyCode` | library.js:169-198 | the checks run in order: no record, then active block, then strictly expired, then hash; success deletes the record; a wrong code counts an attempt, and the third one blocks for fifteen minutes |
| `Verification.SaveCodeKeepsInvariant` | library.js:149-167 | saving keeps every record well formed |
| `Verification.VerifyCodeKeepsInvariant` | library.js:189-197 | verifying keeps every record well formed: at most three attempts, a block ending after the code expiry and within the record lifetime |
| `Verification.BlockedRecordNeverSucceeds` | library.js:178-184 | a record that was ever blocked never verifies again |
| `Verification.BlockMessageAtMostFifteenMinutes` | library.js:158-181 | the minutes quoted with a block are between 1 and 15 |
| `Verification.CorrectCodeIsOneShot` | library.js:184-187 | right after a success, any further attempt finds no record |
| `Verification.SavedCodeVerifies` | library.js:149-198 | a saved code verifies within five minutes, and a code with another digest is refused with two attempts left |
| `Verification.ThreeWrongCodesBlock` | library.js:189-197 | three wrong codes give two, then one attempt left, then a block that refuses the right code and a new save |
| `IpLimiter.CheckIp` | library.js:200-208 | an empty address is always allowed; any other is allowed exactly while fewer than ten requests were counted |
| `IpLimiter.IncrementIp` | library.js:210-216 | the count goes up by one; the 24-hour expiry is set only when no live counter existed; other addresses are untouched |
| `IpLimiter.IncrementKeepsInvariant` | library.js:210-216 | no window ever lasts beyond 24 hours from now |
| `IpLimiter.WindowCountsIncrements` | library.js:210-216 | increments within one window are all counted, and the window keeps its first expiry |
| `IpLimiter.TenRequestsBlock` | library.js:200-216 | ten requests in a window block the address, fewer do not, other addresses are unaffected |
| `IpLimiter.WindowCloses` | library.js:200-216 | once the window has closed the address is allowed again |
| `VerifiedMarker.MarkVerified` | library.js:218-224 | stores the time under the normal form, expiring in ten minutes; other markers are untouched |
| `VerifiedMarker.IsPhoneVerified` | library.js:226-234 | true exactly for a live marker at most ten minutes old; the marker is deleted exactly when it is live but older than ten minutes, and otherwise nothing changes |
| `VerifiedMarker.ClearVerified` | library.js:236-239 | the marker is gone and others are untouched |
| `VerifiedMarker.StaleBranchIsDead` | library.js:232 | with store expiry in force, the age check never fires and reads change nothing |
| `VerifiedMarker.MarkThenAsk` | library.js:218-234 | a mark answers true for any separator form for exactly ten minutes |
| `VerifiedMarker.MarkKeepsInvariant` | library.js:218-224 | marking keeps every marker expiring ten minutes after it was set |
| `PhoneRegistry.Owner` | library.js:245-246 | a missing phone or a zero score reads as nobody |
| `PhoneRegistry.FindUserByPhone` | library.js:279-284 | the user bound to the normal form, if any |
| `PhoneRegistry.IsPhoneExists` | library.js:243-248 | true exactly when `findUserByPhone` finds somebody |
| `PhoneRegistry.GetUserPhone` | library.js:268-277 | nothing unless the profile holds a phone; otherwise its phone, its verified flag and its verification time, a zero time reading as none |
| `PhoneRegistry.SavePhoneToUser` | library.js:250-266 | `PHONE_EXISTS`, changing nothing, exactly when another user holds the phone; otherwise the phone finds the user, the profile holds the normal form, the user's listing time is now, and other phones, profiles and listing entries are unchanged |
| `PhoneRegistry.RemovePhone` | library.js:603-611 | the profile phone leaves both indices and the profile is cleared; other phones, profiles and listing entries are unchanged, and without a profile phone the listing is untouched |
| `PhoneRegistry.ReleaseFirstPhone` | library.js:711-731 | only the first phone found leaves `phone:uid`, and only the user leaves `users:phone`; profiles are untouched |
| `PhoneRegistry.ConfirmPhone` | library.js:662-664 | the profile is marked verified at now with its phone kept; both indices and other users' profiles are unchanged |
| `PhoneRegistry.ConfirmKeepsInvariant` | library.js:662-664 | confirming keeps every stored phone in normal form |
| `PhoneRegistry.PhoneUniqueness` | library.js:250-266 | a phone bound to one user is refused to another and re-saved for its owner |
| `PhoneRegistry.SaveThenFindAnyForm` | library.js:250-284 | after a save, every separator form finds the user |
| `PhoneRegistry.PreviousPhoneStaysBound` | library.js:250-266 | after a number change the old phone still finds the user and is refused to others |
| `PhoneRegistry.DeleteReleasesOnlyFirst` | library.js:718-724 | a second phone of a deleted user stays bound |
| `PhoneRegistry.SaveKeepsInvariant` | library.js:250-266 | saving keeps every stored phone in normal form |
| `PhoneRegistry.RemoveKeepsInvariant` | library.js:603-611 | removing keeps every stored phone in normal form |
| `PhoneRegistry.ReleaseKeepsInvariant` | library.js:711-731 | releasing keeps every stored phone in normal form |
| `Plugin.SendCode` | library.js:488-521 | the IP check comes first; an allowed request is counted whatever follows; missing, invalid and taken phones are refused without a code; otherwise the store's answer (including a blocked phone) is returned; a code is stored only on success |
| `Plugin.VerifyRequest` | library.js:523-534 | missing parameters change nothing; otherwise `verifyCode`'s reply (not found, blocked with minutes, expired, wrong with attempts left, or success) and store change are passed on as they are, and the marker is set exactly on success |
| `Plugin.CheckStatus` | library.js:536-546 | a missing phone answers false; otherwise `isPhoneVerified` |
| `Plugin.CheckRegistration` | library.js:304-322 | accepted exactly for a valid, free phone with a live marker, handing on the ten-digit normal form; a valid, free phone without a live marker is refused as not verified; the marker store changes only through `isPhoneVerified`'s deletion of a stale marker, and only for a valid, free phone |
| `Plugin.UserCreated` | library.js:324-331 | binds the phone as verified and consumes the marker; nothing happens without a phone or a uid |
| `Plugin.UpdateUserPhone` | library.js:591-627 | unknown user, then not owner nor admin, are refused; a blank phone removes the phone; a truthy non-string fails as a server error, an invalid phone as invalid, a phone bound to another user as taken; success holds exactly when the caller may act and the phone is blank or valid and free or already the user's; a failure changes nothing |
| `Plugin.DeleteUser` | library.js:711-731 | releases the first phone found and clears its marker; nothing happens without a uid or a phone |
| `Plugin.InitiateCall` | library.js:548-562 | the phone checks of `apiSendCode` with no address check and no counting; then the store's answer, and on success a reply with the normal form, the plain code and its expiry |
| `Plugin.VerifyUserPhone` | library.js:647-671 | unknown user, then anyone but the owner (administrators included), then a profile without a phone, are refused with nothing changed; otherwise `verifyCode`'s reply for the profile phone, and success marks the profile verified; no marker is touched |
| `Plugin.InitiateCallKeepsInvariant` | library.js:548-562 | the call keeps the whole-state invariant |
| `Plugin.VerifyUserPhoneKeepsInvariant` | library.js:647-671 | the profile verification keeps the whole-state invariant |
| `Plugin.InitiateCallSkipsIpLimit` | library.js:548-562 | for an address `apiSendCode` refuses, `apiInitiateCall` still issues a code, and the code in its reply verifies |
| `Plugin.ProfileFlowRefusesOwnPhone` | library.js:499-500 | after the owner saves a valid phone through the profile, `apiSendCode` refuses that phone as taken |
| `Plugin.ProfileSendCode` | library.js:488-521 | `apiSendCode` with a phone bound to the caller not counted as taken: identical to it for a phone not bound to the caller, and for a blocked address or a missing or invalid phone whoever holds it; for a valid phone of the caller from an allowed address, the address is counted and `saveVerificationCode`'s reply is passed on |
| `Plugin.ProfileFlowVerifies` | library.js:647-671 | save through the profile, send with the corrected step, and verify within five minutes: the profile holds the phone, verified at that time |
| `Plugin.StepKeepsInvariant` | library.js:149-731 | every request keeps the whole-state invariant when the clock does not go back |
| `Plugin.RunKeepsInvariant` | library.js:149-731 | every chronological run keeps the whole-state invariant |
| `Plugin.ReachableStateFacts` | library.js:169-198 | from an empty store: at most three attempts, a block ends after the code expiry, within the record lifetime and within fifteen minutes, and IP windows and markers expire on time |
| `Plugin.RegistrationHappyPath` | library.js:304-331 | send, verify, register and create in time bind the phone to the new user as verified and consume the marker |
| `Plugin.OnlyTheSentCodeVerifies` | library.js:488-534 | with an injective digest, only the code just sent verifies |
| `Plugin.SendCodeCountsEveryAllowedRequest` | library.js:492-494 | an allowed request is always counted; a blocked address changes nothing |
| `Policies.PostingUid` | library.js:64 | the first non-zero uid among the hook's, the post's and the topic's |
| `Policies.PostingGate` | library.js:63-87 | verification is required exactly for a signed-in non-administrator without a verified phone while the setting is on |
| `Policies.RegisteredUserMayPost` | library.js:63-87 | a user created through registration may post |
| `Policies.ChangedPhoneMustBeReverified` | library.js:591-627 | after a profile change or removal, a non-administrator may not post while the setting is on |
| `Policies.ViewPhone` | library.js:564-589 | hidden exactly from a stranger while the phone is private; otherwise the phone `getUserPhone` reports |
| `Policies.SetVisibility` | library.js:629-645 | only the owner may change the flag, and only theirs changes |
| `Policies.AdminMayChangeButNotHide` | library.js:599-601 | an administrator may change another user's phone but not its visibility |
| `Policies.PublicPhoneIsSeenByAll` | library.js:571-576 | a public phone is seen by anyone; a private one only by its owner and administrators |
| `Policies.IntOr` | library.js:675-676 | `parseInt` with a default: NaN and zero give the default |
| `Policies.Paginate` | library.js:675-678 | a page of `perPage` entries starting at `(page-1)*perPage` |
| `Policies.CeilDiv` | library.js:686 | `Math.ceil(total / perPage)` for either sign of `perPage` |
| `Policies.PagesTile` | library.js:675-686 | consecutive pages follow without gap or overlap, and the page count covers the list exactly |
| `Policies.MaskKey` | library.js:439 | the key is shown as the mask, or `""` when unset |
| `Policies.KeyToStore` | library.js:456 | the mask keeps the current key; any other value replaces it |
| `Policies.MaskRoundTrip` | library.js:439-456 | saving the screen unchanged keeps the stored key |
| `VoiceTemplate.Substitute` | library.js:109-110 | the replacement as `replace` expands it: `$$`, `$&`, `` $` `` and `$'` are expanded, and a replacement without `$` is inserted as it is |
| `VoiceTemplate.ReplaceAll` | library.js:109-110 | a text without an occurrence of the pattern is unchanged; for a replacement without `$` the result is the literal left-to-right replacement |
| `VoiceTemplate.ScanCopies` | library.js:109-110 | with no occurrence from a position on, the rest of the text is copied |
| `VoiceTemplate.ScanLiteral` | library.js:109-110 | for a replacement without `$`, the scan is the literal replacement |
| `VoiceTemplate.ScanAtMatch` | library.js:109-110 | at an occurrence the scan emits the expansion of the replacement, given the text before and after it, and continues after the occurrence |
| `VoiceTemplate.ScanSkip` | library.js:109-110 | a stretch without the pattern's first character is copied |
| `VoiceTemplate.FillOnlyHole` | library.js:109-110 | a single occurrence is replaced by the expansion of any replacement in its context, and the text around it is kept |
| `VoiceTemplate.LacksNoOccurrence` | library.js:109-110 | a text without the pattern's first character holds no occurrence |
| `VoiceTemplate.SpokenCodeLacks` | library.js:57-59 | the spoken form of a code holds only digits and spaces |
| `VoiceTemplate.SkipPrefix` | library.js:109-110 | in the literal replacement, a prefix without the pattern's first character is copied |
| `VoiceTemplate.FillHole` | library.js:109-110 | in the literal replacement (what `replace` does for a replacement without `$`), a hole after a clean prefix is filled with the replacement |
| `VoiceTemplate.VoiceMessage` | library.js:96-110 | a template holding neither `{code}` nor `{siteTitle}` is spoken as it is |
| `VoiceTemplate.DefaultCodePass` | library.js:30 | the first replacement on the default template puts the spoken code in both code holes and leaves the title hole and the Hebrew text around it in place |
| `VoiceTemplate.DefaultMessage` | library.js:30 | the default template speaks the title once, expanded as `replace` expands it between the head and the rest of the message, and the code twice |
| `VoiceTemplate.DefaultMessagePlainTitle` | library.js:30 | with a title free of `$`, or the default title, the default template speaks the title itself once and the code twice |
| `VoiceTemplate.DollarPatternsInTitle` | library.js:110 | in a title, `$$` is read as one `$`, `$&` as the hole itself and `$'` as the rest of the message, while `$1` stays as it is |
| `VoiceTemplate.OneHoleTemplate` | library.js:106-110 | a one-hole template speaks its text with the spoken code in the hole |

## Left out

- The HTTP call of `sendVoiceCall` (library.js:112-140), and whether the call was placed. This is network I/O. Only the message text is modelled.
- SHA-256 and `crypto.randomBytes`. These are foreign library calls; they are replaced by a hash parameter and a random draw.
- The `!db` / `!User` branches that answer `DB_ERROR`, `{ success: false }` or nothing, and the catch-all `SERVER_ERROR` for host failures. The host store is modelled as always present and never failing.
- The exact host semantics of `getSortedSetRangeByScore('phone:uid', uid, 1, uid)` (library.js:718). The call passes the uid as the range offset. The model takes the returned list as given: phones bound to the user, and empty only when there are none.
- Races between the check and the write in `savePhoneToUser` and in `incrementIpCounter`. The model is sequential.
- Route registration and other `init` plumbing, hook registration, `addPhoneToAccount`, `whitelistFields` and `loadScript`. These are host wiring with no decisions.
- Logging, the Hebrew reply texts and the development-only `_code` field of `apiSendCode`. Replies are modelled by their error kinds and numbers.
- `apiAdminSearchByPhone` and `apiAdminGetUserPhone`. They are read-only lookups through `findUserByPhone` and `getUserPhone`, which are modelled.
- `apiAdminTestCall`. It validates the phone and places a voice call with the fixed code `123456`; it touches no state, and the call is network I/O.
- `addAdminNavigation` and `renderAdmin`. They add a menu entry and render a page, with no decisions.
- `getAllUsersWithPhones` and the listing itself. Only the page arithmetic is modelled.
- The settings fields other than the API key, and `getSettings`/`saveSettings` defaults beyond the key.
- The `DEBUG_SKIP_VERIFICATION` branch of `checkRegistration`. It is the constant `false`.
- Non-string `code` values in `apiVerifyCode` and `apiVerifyUserPhone`. Codes are strings here. A truthy non-string code reaches the hash only after the not-found, blocked and expired checks (library.js:175-183), so those replies still come first; only at the hash would it throw and end in `SERVER_ERROR`.
- The two separate `Date.now()` reads in `markPhoneAsVerified`. They are one clock reading here.
- UTF-16 code units. `split('')` in `formatCodeForSpeech` and the string functions work on code units; strings here are sequences of Unicode scalar values. This makes no difference for digit codes and phones.
- `static/lib/main.js` and `static/lib/admin.js`, which are browser UI. The order in which the profile screen calls the server is used only for the finding below.
- Plugin.UpdateUserPhone: a truthy non-string phone is modelled as the `SERVER_ERROR` that `trim` raises, and nothing more is said about that case.
- Plugin.DeleteUser: the deleted user's profile fields are kept, because the host deletes the profile itself.

## Findings

| source | as written | input that shows it | evidently intended | confidence | as-written member | corrected member |
|---|---|---|---|---|---|---|
| library.js:499-500 | `apiSendCode` refuses every phone bound in `phone:uid`, including a phone bound to the signed-in caller | a user saves `0501234567` on the profile screen, which binds it to them through `apiUpdateUserPhone`; the screen then requests `send-code` for it (static/lib/main.js:301-347) and gets `PHONE_EXISTS` | a phone bound to the caller is not taken, so the profile flow reaches `apiVerifyUserPhone` | high; not executed | `Plugin.ProfileFlowRefusesOwnPhone` | `Plugin.ProfileSendCode`, `Plugin.ProfileFlowVerifies` |

The whole-state invariant (`Plugin.Step`) runs `SendCode` as written. Registration needs no correction, because there the phone is bound to nobody. The corrected send step is used only by the profile flow in `Plugin.ProfileFlowVerifies`.
