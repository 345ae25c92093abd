# NihongoWOW core, modelled in Dafny

NihongoWOW is a web application for learning Japanese vocabulary. It has a
FastAPI backend and a Next.js frontend. This project models the rules both
halves enforce, as pure Dafny functions over immutable records, and proves
properties of those rules.

**Backend endpoints**

Each endpoint is a function from the database state and the request to a
new database state and a reply (`Outcome(db, reply)`). The reply is either a
value or an HTTP error with its status code and message.

- Registration, login with the lockout counter, sign-in codes, and e-mail
  confirmation and its resend (`Auth`).
- The administrator's invitation, user and cache endpoints (`Admin`), and
  the audit log's address masking and client-address extraction (`Audit`).
- The daily high-score upsert and the three score listings (`Scores`).
- The vocabulary listing with its escaped LIKE search (`Vocabulary`,
  `SqlLike`) and the CSV import's row accounting (`VocabularyImport`).
- Question construction and answer grading for the quiz (`Quiz`).
- The kana tables and mixed-kana sampling (`KanaTables`, `Kana`).
- Tag preferences (`TagPreferences`) and settings with their defaults
  (`Settings`).
- The start-up administrator sync and expired-token cleanup (`Startup`).
- The request validators (`Schemas`) and the database records (`Models`).

**Frontend pages and games**

Each page or game is a record state with one transition function per
event. Network replies, timer firings and clicks are explicit arguments.

- The Lines, Memory and Salad games (`LinesGame`, `MemoryGame`, `SaladGame`).
- The quiz session and the fill-in-the-blank slots (`QuizSession`,
  `FillInBlank`).
- The registration, sign-in code, e-mail confirmation and invitation pages
  (`RegisterPage`, `VerifyPage`, `ConfirmEmailPage`, `InvitationsPage`).
- The tag filter and the administrator's vocabulary table (`TagFilter`,
  `VocabularyTable`).
- The shared `m:ss` formatting and cooldown tick (`Countdown`).

**Conventions**

- Time is an integer `now`, in seconds.
- Database tables are sequences of records. A query's `.first()` is the
  first match in sequence order.
- A fresh UUID is one more than the largest id in its table.
- Randomness is a parameter:
  - a shuffle is `Shuffle.Shuffle(xs, picks)`, a Fisher-Yates pass driven by
    the given choices;
  - `random.sample` and `random.choice` are `Shuffle.Sample` and
    `Shuffle.Choice`;
  - coin flips and row draws are explicit arguments.
- External conversions are function parameters: Unicode NFC, the wanakana
  transliteration, the regex word list and word-boundary search, password
  hashing and URL decoding.
- Strings are sequences of characters. Lower-casing is the ASCII mapping.
  `str.strip` uses Python's whitespace set.

**Behaviour where the code departs from its own messages and schema**

- The score schema admits only `quiz`, `salad` and `lines`, although the
  Memory game submits `memory`. `Schemas.MemoryGameTypeRejected` states
  this.
- A failed load does not always give an empty round:
  - Lines keeps the previous cards;
  - Salad keeps its previous cards;
  - Memory clears the deck.
- The registration page shows a failed verification resend.
- The confirmation page stays silent when a resend fails.

**Behaviour kept as the code has it**

Backend:

- Token cleanup deletes only tokens whose expiry is strictly before now.
  Validity needs an expiry strictly after now, so a token expiring exactly
  now is neither valid nor removed
  (`Startup.ExpiringNowIsNeitherValidNorRemoved`).
- Login failures keep counting after a lock. Every later failure renews
  the lock until a success (`Auth.LockRenewsAfterExpiry`).
- The quiz's tag filter puts each term into `ILIKE` unescaped, while the
  vocabulary listing escapes it. A tag `_` therefore draws from every
  tagged entry (`Quiz.UnderscoreTagMatchesAnyTags`).
- The kana count bound is 109, but the tables hold 104 entries. A larger
  request returns all 104.
- A round-size setting of `0` gives an empty kana round.
- The start-up administrator sync compares addresses exactly, so a
  mixed-case stored address is not promoted
  (`Startup.MixedCaseAddressNotPromoted`).
- Wrong multiple-choice options come from the whole vocabulary, not from
  the tag pool.
- Unknown quiz modes are graded as English.
- Registration applies the username validator as written, so a name
  ending in a dot behind a final line feed is registered
  (`Auth.NewlineUsernameRegisters`; see "## Findings").
- A vocabulary update that sends `null` keeps it: `null` tags clear the
  tags, and a `null` expression, reading or meaning fails at the commit
  with 500 (`Vocabulary.NullTagsClearTags`,
  `Vocabulary.NullExpressionFails`).

Frontend:

- Memory finishes only at a fixed 15 pairs (`MemoryGame.FewWordsNeverFinish`).
- The Lines game stays loading after an empty reply.
- Salad's restart goes to playing even after a failed load.
- The vocabulary table's Next button moves back when the page is past the
  last one (`VocabularyTable.NextPastTheEndGoesBack`).
- Submitting a search on the vocabulary table from any page other than the
  first issues two loads (`VocabularyTable.SubmitSearch`).
- Typing in the search box reloads the current page at every keystroke and
  does not reset the page. A filtered listing can then have fewer pages
  than the page shown (`VocabularyTable.TypedSearchOutrunsListing`).

## Model

| member | source | states |
|---|---|---|
| Models.NewUser | backend/app/models.py:12-23 | a new user has the given id, name, address and administrator flag, is unverified, has sign-in codes on, no failed attempts and no lock |
| Models.ResetFailedAttempts | backend/app/models.py:38-41 | the counter becomes 0 and the lock is cleared; nothing else about the user changes |
| Models.ResetUnlocks | backend/app/models.py:32-41 | after a reset the account is unlocked at any time |
| Models.LockWindow | backend/app/models.py:32-36 | a lock until t holds exactly at instants strictly before t |
| Models.FreshId | backend/app/models.py:12 | the new id is larger than, hence different from, every existing one |
| Models.FreshUserId | backend/app/models.py:12 | the new user id differs from every existing user's id |
| Models.UserByEmail | backend/app/routers/auth.py:154 | a found user is stored with exactly that address; none is found exactly when no user has it |
| Models.UserById | backend/app/routers/auth.py:369 | a found user is stored with exactly that id; none is found exactly when no user has it |
| Models.ReplaceUser | backend/app/routers/auth.py:180-199 | the table keeps its length, and exactly the rows with the updated user's id are replaced by it |
| Schemas.UsernameNewlineSlipsThrough | backend/app/schemas.py:41-45 | the validator as written accepts "abc.\n", which ends in a dot behind a line feed, while the intended rule rejects it |
| Schemas.UsernameValidatorsAgreeWithoutNewline | backend/app/schemas.py:36-46 | every name the intended rule accepts passes the validator as written, and on names not ending in a line feed the two agree |
| Schemas.ValidUsernameHasNoNewline | backend/app/schemas.py:41 | a name accepted by the intended rule holds no line feed |
| Schemas.IntendedUserCreateStricter | backend/app/schemas.py:9-46 | every registration body the intended username rule accepts is accepted as written, and the two differ only on usernames ending in a line feed |
| Schemas.MemoryGameTypeRejected | backend/app/schemas.py:124-126 | a score for the game type "memory" never passes the score schema |
| Scores.OnePerDayUnique | backend/app/routers/scores.py:27-31 | with one record per user, game and day, two records of the same user, game and day are the same record |
| Scores.DayIndex | backend/app/routers/scores.py:27-31 | a found record belongs to that user, game and day; none is found exactly when no record does |
| Scores.UpdateScore | backend/app/routers/scores.py:14-52 | the update succeeds exactly when the score schema accepts it, and a rejection is a 422 that changes nothing; on success the returned record is today's record of that game, stored in the table |
| Scores.UpdateScoreKeepsOnePerDay | backend/app/routers/scores.py:27-52 | an update keeps at most one record per user, game and day |
| Scores.UpdateScoreNeverLowers | backend/app/routers/scores.py:33-40 | an update never removes a record and never lowers any stored score |
| Scores.Tally | backend/app/routers/scores.py:68-79 | filling the response fails exactly when a 'memory' row is present, with a 500; otherwise a game without rows keeps its starting value and a game with rows takes the score of one of them |
| Scores.RowsOfDay | backend/app/routers/scores.py:63-66 | the selected rows are exactly the user's rows of that day |
| Scores.TodayScores | backend/app/routers/scores.py:55-79 | the request fails exactly when the user has a 'memory' record today |
| Scores.TodayScoresReportsRecord | backend/app/routers/scores.py:63-79 | without a 'memory' record today, each game reports today's record, or 0 when there is none |
| Scores.UpdateThenTodayReportsAtLeast | backend/app/routers/scores.py:14-79 | after an accepted update, today's scores report for that game at least the submitted score |
| Scores.MaxScore | backend/app/routers/scores.py:113-116 | the maximum is absent exactly for no rows, and otherwise is one row's score and bounds all of them |
| Scores.RowsOfGame | backend/app/routers/scores.py:113-116 | the selected rows are exactly the user's rows of that game |
| Scores.Best | backend/app/routers/scores.py:113-119 | the best score bounds every record of the user in that game and is one of them; it is 0 when there is none |
| Scores.BestScores | backend/app/routers/scores.py:102-121 | the request fails with a 500 exactly when the user's best 'memory' score is non-zero; otherwise each game reports its best |
| Scores.UpdateThenBestIsAtLeast | backend/app/routers/scores.py:14-121 | after an accepted update, the all-time best of that game is at least the submitted score |
| Scores.MyScores | backend/app/routers/scores.py:82-99 | at most `limit` of the user's records of the chosen game, newest first, each a stored record and none taken twice (a sub-multiset of the table); a selected record is left out only when the limit is reached and it is no newer than the last one returned |
| Scores.NewestFirst | backend/app/routers/scores.py:97 | in a newest-first list, every record beyond the first n is no newer than the n-th |
| Scores.UpdatedRecordListedFirst | backend/app/routers/scores.py:14-99 | when the user's records are dated up to today, the record an accepted update returns heads the user's history of that game |
| Auth.CleanEntries | backend/app/routers/auth.py:88 | every entry kept from a split setting is non-empty and already lower-case |
| Auth.AdminList | backend/app/routers/auth.py:88 | the administrator list parsed from the comma-separated setting holds only non-empty lower-case addresses |
| Auth.CleanEntriesIdentity | backend/app/routers/auth.py:88 | entries that are already non-empty, stripped and lower-case pass through the cleaning unchanged |
| Auth.AdminListOfJoin | backend/app/routers/auth.py:88 | joining clean addresses with commas and parsing the setting gives back exactly those addresses, in order |
| Auth.LockedError | backend/app/routers/auth.py:168-175 | a locked account is answered with status 423 |
| Auth.RecordFailure | backend/app/routers/auth.py:178-190 | a failed attempt adds one to the counter; reaching 10 locks the account for 15 minutes from now, below 10 the lock is left as it was, and nothing else about the user changes |
| Auth.AddVerificationToken | backend/app/routers/auth.py:113-121 | one token row is appended for the user, with a fresh id, the given token and an expiry 24 hours on; the other tables are untouched |
| Auth.ReplaceVerificationToken | backend/app/routers/auth.py:415-428 | afterwards the user has exactly one verification token, the new one with a fresh 24-hour expiry, and every other user's tokens are kept |
| Auth.IssueCode | backend/app/routers/auth.py:203-214 | afterwards the user has exactly one sign-in code, the new one expiring after the configured lifetime, and every other user's codes are kept |
| Auth.InvitationFor | backend/app/routers/auth.py:67-72 | a found invitation has the token, is unaccepted and unexpired; none is found exactly when no invitation is open for that token |
| Auth.RegistrationError | backend/app/routers/auth.py:44-85 | registration passes exactly when the data is valid under the username validator as written, the honeypot is empty, no account has the username or the address, and an invitation token, if given, names an open invitation whose address matches in any letter case; valid data with a filled honeypot gives 404 |
| Auth.CreateAccount | backend/app/routers/auth.py:87-121 | one user is appended with the submitted name and address, the password's hash, unverified, sign-in codes on, the given administrator flag and a fresh id; one link is appended after the existing ones, for that user, with the given token and a 24-hour expiry |
| Auth.Register | backend/app/routers/auth.py:36-133 | registration fails exactly when RegistrationError finds a reason, and then changes nothing; otherwise it creates the account, an administrator exactly when the lower-cased address is on the configured list |
| Auth.NewlineUsernameRegisters | backend/app/schemas.py:36-46 | the endpoint registers the name "abc.\n", line feed included, though the intended username rule refuses it |
| Auth.InvitationExpiresAtItsInstant | backend/app/routers/auth.py:71 | an invitation whose expiry is not strictly after now is refused |
| Auth.RegisterKeepsAccountsUnique | backend/app/routers/auth.py:49-63 | registration keeps every username and every address held by one account at most |
| Auth.Login | backend/app/routers/auth.py:136-236 | a filled honeypot gives 404 and an unknown address 401, changing nothing; the right password on an unlocked but unverified account is 401 and changes nothing; the right password on an unlocked verified account always succeeds: the counter is reset, and a code is issued when codes are on, otherwise a token for the username is returned; conversely a success implies the right password, a verified address and no lock |
| Auth.LoginWhileLockedChangesNothing | backend/app/routers/auth.py:168-175 | while the account is locked a sign-in attempt answers 423 and records nothing, whatever the password |
| Auth.WrongPasswordIsRecorded | backend/app/routers/auth.py:177-190 | a wrong password on an unlocked account answers 401 and records exactly one failure |
| Auth.ReplaceUserKeepsLookup | backend/app/routers/auth.py:180-199 | updating a user in place keeps its address finding the updated row and keeps accounts unique |
| Auth.FailuresCountUntilLock | backend/app/routers/auth.py:180-184 | consecutive failures are counted one by one; below 10 the account stays unlocked and the tenth locks it 15 minutes from that attempt |
| Auth.TenthFailureLocks | backend/app/routers/auth.py:183-184 | from a clean account the first nine failures leave it unlocked and the tenth locks it |
| Auth.LockRenewsAfterExpiry | backend/app/models.py:32-36 | once a lock has run out, a single further failure locks the account again, since the counter is not reset when the lock expires |
| Auth.VerifyMfa | backend/app/routers/auth.py:239-303 | a malformed code is a validation error; an unknown address is 400 "Invalid verification code" and changes nothing; an unlocked user holding a matching unexpired code always gets the token for the username; conversely a success implies such a code, which is deleted, and marks the address verified and resets the counter |
| Auth.CodeExpiresAtItsInstant | backend/app/routers/auth.py:260-264 | a code whose expiry is not strictly after now never signs anyone in |
| Auth.VerifyNeedsLiveCode | backend/app/routers/auth.py:259-280 | without a matching live code for that user the verification fails |
| Auth.SuccessConsumesCode | backend/app/routers/auth.py:282-283 | after a successful verification the user has no code left |
| Auth.RemoveLeavesNoCodeOf | backend/app/routers/auth.py:283 | deleting the only code of a user leaves no code of that user |
| Auth.CodeIsSingleUse | backend/app/routers/auth.py:282-283 | the same code cannot be verified twice, at any later time |
| Auth.ResendMfa | backend/app/routers/auth.py:306-343 | the reply is always a success; an unknown address changes nothing, a known one gets a fresh single code |
| Auth.IssueCodeKeepsOnePerUser | backend/app/routers/auth.py:203-214 | issuing a code keeps at most one code per user |
| Auth.LoginKeepsOneCodePerUser | backend/app/routers/auth.py:201-214 | sign-in keeps at most one code per user |
| Auth.ResendKeepsOneCodePerUser | backend/app/routers/auth.py:324-335 | resending keeps at most one code per user |
| Auth.VerifyKeepsOneCodePerUser | backend/app/routers/auth.py:282-292 | verification keeps at most one code per user |
| Auth.RemoveKeepsOnePerUser | backend/app/routers/auth.py:283 | deleting one code keeps at most one code per user |
| Auth.ConfirmEmail | backend/app/routers/auth.py:352-386 | a failure changes nothing; with no live link carrying the token it answers 400 "Invalid or expired verification link"; when a live link exists and every such link's user exists, it answers "Email successfully verified. You can now log in."; a success consumed one live link with that token and marked its user verified |
| Auth.RegisteredLinkConfirms | backend/app/routers/auth.py:113-121 | the link mailed at registration, used before it expires and carrying a token no stored link has, confirms exactly the new account |
| Auth.ConfirmedAccountLogsIn | backend/app/routers/auth.py:136-236 | after registering and confirming with the mailed link, signing in with the registered address and password succeeds at any time, given a password check that accepts a password against its own hash |
| Auth.ResendVerification | backend/app/routers/auth.py:389-436 | the reply is always the same generic success; an unknown or verified address changes nothing, an unverified one gets exactly one fresh token |
| Auth.ResentLinkConfirms | backend/app/routers/auth.py:415-428 | with unique accounts, the link sent again to an unverified address confirms exactly that account until it expires, provided no stored link carries its token |
| Admin.InvitationError | backend/app/routers/admin.py:37-58 | an invitation is refused exactly when a user already has the address or an unaccepted invitation for it has not expired; an existing user gives 400 "This email address is already registered" |
| Admin.CreateInvitation | backend/app/routers/admin.py:29-86 | the request fails exactly when InvitationError finds a reason, leaving the database as it was; otherwise the stored invitation has the lower-cased address, the new token, is unaccepted, names the creating administrator and expires 7 days on |
| Admin.CreateInvitationBlocksDuplicate | backend/app/routers/admin.py:47-58 | while a created invitation is still unexpired, a second invitation for the same address in any letter case is refused |
| Admin.CreatedInvitationIsRedeemable | backend/app/routers/admin.py:60-70 | a created invitation is found by registration's token lookup at any time before its expiry |
| Admin.InviterName | backend/app/routers/admin.py:100-101 | the sender shown is the inviting user's name, or "Unknown" when that user no longer exists |
| Admin.ListInvitations | backend/app/routers/admin.py:89-116 | one row per stored invitation, newest first, each carrying its sender's name or "Unknown" |
| Admin.CreatedInvitationListedFirst | backend/app/routers/admin.py:29-116 | after an existing administrator creates an invitation, the listing is the created invitation's row followed by the previous listing |
| Admin.DeleteInvitation | backend/app/routers/admin.py:119-135 | an unknown id is 404 "Invitation not found" and changes nothing; a known id removes that invitation's row |
| Admin.DeleteInvitationRemovesExactlyIt | backend/app/routers/admin.py:126-135 | with distinct ids, after a deletion no invitation has that id and every other invitation is still there |
| Admin.ResendInvitation | backend/app/routers/admin.py:140-182 | unknown id is 404; an accepted invitation is 400 "This invitation has already been accepted"; otherwise only the token and the expiry (now plus 7 days) change |
| Admin.ResentInvitationIsRedeemable | backend/app/routers/admin.py:162-166 | after a resend the new token is redeemable until the new expiry |
| Admin.CascadeDelete | backend/app/models.py:25-30 | deleting a user removes exactly that user's codes, links, scores, sent invitations and preferences, and nothing else |
| Admin.DeleteUser | backend/app/routers/admin.py:214-239 | an unknown user is 404, the administrator's own account is 400 "You cannot delete your own account", and otherwise the user is deleted with everything that belongs to them |
| Admin.DeleteUserKeepsOthers | backend/app/routers/admin.py:229-234 | whatever the request, the acting administrator and every other user keep their accounts |
| Admin.DeleteUserLeavesNoReferences | backend/app/routers/admin.py:238-239 | after a deletion no row of any table refers to the deleted user |
| Admin.ResendUserVerification | backend/app/routers/admin.py:242-292 | unknown user is 404, a verified user is 400 "User is already verified", otherwise the user's links are replaced by one new link |
| Admin.ResendUserVerificationLeavesOneLink | backend/app/routers/admin.py:264-277 | afterwards the user holds exactly one link, the new one, and other users' links are untouched |
| Admin.GetCacheStats | backend/app/routers/admin.py:297-309 | the counts are the sizes of the hint cache and the TTS cache |
| Admin.VocabById | backend/app/routers/admin.py:322 | the entry found has the requested id, and none is found only when no entry has it |
| Admin.ViewHint | backend/app/routers/admin.py:361-374 | a hint is shown with its entry's expression, reading and meaning, or with blank columns when the entry is gone |
| Admin.ListHintCache | backend/app/routers/admin.py:312-338 | the listing holds exactly the cached hints whose entry still exists, each joined with that entry |
| Admin.ListHintCacheTotal | backend/app/routers/admin.py:335-338 | the listed total is the number of cached hints whose entry exists |
| Admin.UpdateHintCache | backend/app/routers/admin.py:341-374 | an empty hint is a 422, an unknown id is 404 "Cached hint not found", otherwise only that hint's text changes and the reply shows it |
| Admin.DeleteHintCache | backend/app/routers/admin.py:377-395 | an unknown id is 404 and changes nothing; a known id removes that hint |
| Admin.UpdatedHintListed | backend/app/routers/admin.py:312-374 | with distinct ids, every hint listing row with the id shows the new text, and such a row exists exactly when the hint's entry exists |
| Admin.DeleteHintCacheRemovesExactlyIt | backend/app/routers/admin.py:297-395 | with distinct ids, after a delete no hint has that id, every other hint stays, and the statistics count one hint fewer |
| Admin.ClearHintCache | backend/app/routers/admin.py:398-407 | the hint cache is empty afterwards and no other table changes |
| Admin.ListTtsCache | backend/app/routers/admin.py:410-430 | one row per cached rendering, newest first, with its id and text and without the audio |
| Admin.GetTtsAudio | backend/app/routers/admin.py:433-452 | an unknown id is 404 "Cached TTS not found"; otherwise the stored MP3 bytes of that entry |
| Admin.DeleteTtsCache | backend/app/routers/admin.py:455-473 | an unknown id is 404 and changes nothing; a known id removes that entry |
| Admin.ListedTtsHasAudio | backend/app/routers/admin.py:410-452 | with distinct ids, every id the TTS listing shows fetches the audio of the entry that row lists |
| Admin.TtsFound | backend/app/routers/admin.py:433-452 | with distinct ids, fetching an entry's id returns that entry's audio |
| Admin.DeleteTtsCacheRemovesExactlyIt | backend/app/routers/admin.py:297-473 | with distinct ids, after a delete the audio fetch is 404, every other entry stays, and the statistics count one fewer |
| Admin.ClearTtsCache | backend/app/routers/admin.py:476-485 | the TTS cache is empty afterwards and no other table changes |
| Admin.ClearsEmptyTheirCache | backend/app/routers/admin.py:398-485 | after a clear the statistics report zero for that cache and the other count unchanged, and the hint listing is empty |
| Audit.ClientIp | backend/app/audit_logger.py:25-38 | no request gives "unknown"; a non-empty X-Forwarded-For gives its first comma-separated entry stripped; otherwise the client host, or "unknown" without one |
| Audit.ClientIpOfChain | backend/app/audit_logger.py:31-33 | for a proxy chain "client, proxy1, ..." the extracted address is the original client's, whatever the proxies and the host |
| Audit.MaskLocal | backend/app/audit_logger.py:126-129 | the masked local part has the same length; up to 2 characters it is all '*', longer ones keep only the first and last characters |
| Audit.MaskEmail | backend/app/audit_logger.py:120-131 | without '@' (the empty string included) the mask is "***"; otherwise it splits at the last '@', keeps the domain verbatim and masks the local part, so the length is unchanged |
| Audit.MaskRevealsAtMostTwo | backend/app/audit_logger.py:126-129 | every local-part character except the first and last of a local part longer than 2 is shown as '*' |
| Audit.MaskHidesMiddle | backend/app/audit_logger.py:120-131 | two addresses with the same domain, the same local length and the same outer characters mask identically, so the log cannot tell them apart |
| Audit.MessageParts | backend/app/audit_logger.py:92-110 | the parts start with `event=` and `status=` (SUCCESS iff success) and add `user=` with the masked address, `user_id=`, `ip=` and `details=` only for values that are present and not empty |
| Audit.LineFields | backend/app/audit_logger.py:92-112 | joining the parts gives the head followed by the user, user id, address and details fields, each empty when its value is absent or empty |
| Audit.LineShape | backend/app/audit_logger.py:112 | the joined message begins with "event=... &#124; status=..." and, when details are given, ends with " &#124; details=..." |
| Audit.LogAuditEvent | backend/app/audit_logger.py:67-117 | a success is logged at INFO and a failure at WARNING; the line is "event=E &#124; status=SUCCESS" or "FAILED", followed in this order by " &#124; user=" with the masked address, " &#124; user_id=", " &#124; ip=" and " &#124; details=", each only when its value is present and not empty; the address is the one given, or the request's client address when none is given and a request is |
| Audit.BareEventMessage | backend/app/audit_logger.py:92-112 | an event with no optional values logs exactly "event=E &#124; status=S" |
| Audit.LoginSuccess | backend/app/audit_logger.py:135-138 | an INFO line "event=LOGIN_SUCCESS &#124; status=SUCCESS", or ADMIN_LOGIN for an administrator, then the masked address and the request's client address, and no user id or details |
| Audit.LoginFailed | backend/app/audit_logger.py:141-149 | a WARNING line "event=LOGIN_FAILED &#124; status=FAILED", then the masked address, the client address and the reason as details |
| Audit.AccountLocked | backend/app/audit_logger.py:152-160 | a WARNING line "event=ACCOUNT_LOCKED &#124; status=FAILED", then the masked address, the client address and the details "Too many failed login attempts" |
| Audit.MfaEventName | backend/app/audit_logger.py:165-169 | "verified" and "failed" map to MFA_VERIFIED and MFA_FAILED, and every other type maps to MFA_SENT |
| Audit.MfaEvent | backend/app/audit_logger.py:163-171 | a line at INFO for a success and WARNING otherwise, headed by the mapped event name and the status, then the masked address and the client address, without details |
| Audit.Registration | backend/app/audit_logger.py:174-176 | an INFO line "event=REGISTRATION &#124; status=SUCCESS", then the masked address and the client address |
| Audit.AdminActionName | backend/app/audit_logger.py:186-192 | the four known actions map to their events, CSV_IMPORTED only for "csv_imported", and every unknown action to SETTINGS_CHANGED |
| Audit.AdminAction | backend/app/audit_logger.py:179-194 | an INFO line headed by the mapped event name, then the administrator's masked address, the client address and the given details |
| Audit.EventReadsBack | backend/app/audit_logger.py:95 | the event name, which holds no space, is read back from the start of any line written for it |
| Audit.LoginLinesNameTheirEvents | backend/app/audit_logger.py:135-149 | the lines of a login success and a failed login read back as LOGIN_SUCCESS or ADMIN_LOGIN, and LOGIN_FAILED |
| Audit.AccountLinesNameTheirEvents | backend/app/audit_logger.py:152-176 | the lockout and registration lines read back as ACCOUNT_LOCKED and REGISTRATION |
| Audit.MappedLinesNameTheirEvents | backend/app/audit_logger.py:163-194 | the code-event and administrator lines read back as the event their mapping chose |
| Audit.FailedLoginHidesAddress | backend/app/audit_logger.py:141-149 | failed logins for two addresses with the same domain, local length and outer characters write the same line |
| Startup.Promote | backend/app/main.py:33-36 | a user becomes an administrator when its stored address is on the list, and an administrator stays one |
| Startup.SyncAdminEmails | backend/app/main.py:20-45 | the user table keeps its length and order; each user is promoted exactly when its stored address is on the parsed list, nobody is demoted, and no other table changes |
| Startup.SyncNeverRevokes | backend/app/main.py:33-36 | the start-up sync never takes administrator rights away, and a second run changes nothing |
| Startup.MixedCaseAddressNotPromoted | backend/app/main.py:26-36 | a user whose stored address has upper-case letters is never promoted, since the list is lower-cased and compared exactly |
| Startup.CleanupExpiredTokens | backend/app/main.py:48-77 | a code or verification token is kept exactly when it has not expired strictly before now, an invitation exactly when it is accepted or has not expired strictly before now; nothing else changes |
| Startup.CleanupKeepsWhatIsValid | backend/app/main.py:55-68 | nothing the endpoints would still accept now is removed, and accepted invitations always stay |
| Startup.ExpiringNowIsNeitherValidNorRemoved | backend/app/main.py:56 | a code, verification link or invitation expiring exactly now is refused by its endpoint (a link with no later-expiring copy fails to confirm) and yet kept by the clean-up |
| Startup.CleanupIdempotent | backend/app/main.py:48-77 | a second clean-up at the same instant removes nothing more |
| SqlLike.PercentPrefix | backend/app/routers/vocabulary.py:48-61 | a pattern starting with '%' matches a text exactly when the rest of the pattern matches some suffix of it |
| SqlLike.PercentMatchesAll | backend/app/routers/quiz.py:84 | the pattern "%" matches every text |
| Settings.InitDefaultSettings | backend/app/routers/settings.py:13-26 | afterwards the keys are the stored ones plus the defaults; stored values are kept and each missing default gets its default value |
| Settings.InitDefaultSettingsIdempotent | backend/app/routers/settings.py:19-26 | initialising twice is initialising once, and a table already holding every default is left alone |
| Settings.GetAllSettings | backend/app/routers/settings.py:29-38 | the reply is the whole table after initialisation: it holds both defaults and every stored value unchanged |
| Settings.GetSetting | backend/app/routers/settings.py:41-61 | the request succeeds exactly for a stored key or a default key; a stored key answers its value without change, a missing default is created with its default value, any other key is 404 and changes nothing |
| Settings.UpdateSetting | backend/app/routers/settings.py:64-84 | an upsert: afterwards the key holds the value, the key set grows by that key only and every other value is kept |
| Settings.GetAfterUpdate | backend/app/routers/settings.py:41-84 | a read after an update answers the updated value and changes nothing, and reads of other keys answer as before |
| Vocabulary.ReplaceAll | backend/app/routers/vocabulary.py:32 | replacing a character the text does not hold leaves it unchanged |
| Vocabulary.ReplaceAllAppend | backend/app/routers/vocabulary.py:32 | replacement distributes over concatenation, so it acts character by character |
| Vocabulary.Escaped | backend/app/routers/vocabulary.py:30-32 | the escaped text is one character longer per '\\', '%' or '_' and equals the text when it has none of them |
| Vocabulary.EscapeLikePatternIsCharwise | backend/app/routers/vocabulary.py:30-32 | the three chained replacements equal escaping each special character where it stands, so an escaped '\\' is not escaped again |
| Vocabulary.LiteralHead | backend/app/routers/vocabulary.py:30-32 | an escaped character at the head of a pattern matches exactly that character |
| Vocabulary.EscapedPrefix | backend/app/routers/vocabulary.py:30-32 | an escaped text followed by a pattern matches exactly the texts that begin with that very text and continue with a match of the pattern |
| Vocabulary.SearchPatternMeansContains | backend/app/routers/vocabulary.py:48-49 | the search pattern "%escaped%" matches a text exactly when the text contains the search string, whatever wildcards the string holds |
| Vocabulary.LowerAppend | backend/app/routers/vocabulary.py:51-53 | lower-casing distributes over concatenation |
| Vocabulary.LowerEscaped | backend/app/routers/vocabulary.py:51-53 | lower-casing and escaping commute |
| Vocabulary.ContainsPatternMeaning | backend/app/routers/vocabulary.py:48-61 | the case-insensitive pattern matches exactly when the lower-cased text contains the lower-cased search string |
| Vocabulary.ListTagTerms | backend/app/routers/vocabulary.py:58 | the listing's tag terms are the comma-separated parts, each stripped, blank ones included |
| Vocabulary.RandomTagTerms | backend/app/routers/vocabulary.py:115 | the random endpoint's tag terms are the listing's terms without the blank ones |
| Vocabulary.ListMatchesMeaning | backend/app/routers/vocabulary.py:44-61 | an entry is listed exactly when a given search string occurs, ignoring case, in its expression, reading or meaning, and its tags contain every given tag term, ignoring case |
| Vocabulary.PageCount | backend/app/routers/vocabulary.py:70 | the page count is the least number of pages of that size holding all the items |
| Vocabulary.PageOf | backend/app/routers/vocabulary.py:66-68 | a page holds at most `size` items, the ones at its offset in order; it is full before the last page and holds the remainder on the last |
| Vocabulary.FirstPagesArePrefix | backend/app/routers/vocabulary.py:66-68 | the first n pages joined are the first n·size items |
| Vocabulary.AllPagesCoverTheList | backend/app/routers/vocabulary.py:66-70 | all the counted pages joined give back the whole list, and every page beyond the count is empty |
| Vocabulary.Listing | backend/app/routers/vocabulary.py:44-64 | the filtered list holds exactly the matching entries, and its length is their number; its newest-first order is stated by CreatedListedFirst |
| Vocabulary.ListVocabulary | backend/app/routers/vocabulary.py:35-78 | the request succeeds exactly for a page of at least 1 and a page size of 1 to 100, otherwise 422; the reply echoes page and size, counts every match, computes the page count from it and holds at most a page of matching entries |
| Vocabulary.ListVocabularyPagesCover | backend/app/routers/vocabulary.py:35-78 | walking the pages from 1 to the reported page count returns every match exactly once, in order |
| Vocabulary.AllTags | backend/app/routers/vocabulary.py:90-99 | the collected tags are exactly the space-separated words of the entries' tags |
| Vocabulary.GetAllTags | backend/app/routers/vocabulary.py:81-101 | the tag list is strictly sorted and holds exactly the non-empty words of the entries' tags, none holding a space |
| Vocabulary.GetAllTagsDistinct | backend/app/routers/vocabulary.py:93-101 | the tag list holds no tag twice |
| Vocabulary.RandomPool | backend/app/routers/vocabulary.py:111-118 | the candidates are exactly the entries whose tags contain every non-blank tag term, and hold no entry twice |
| Vocabulary.FilterKeepsDistinctEntries | backend/app/routers/vocabulary.py:111-118 | filtering entries with distinct ids keeps them distinct |
| Vocabulary.GetRandomVocabulary | backend/app/routers/vocabulary.py:104-125 | the request succeeds exactly for a count of 1 to 50, otherwise 422; the reply holds min(count, candidates) candidates, none twice |
| Vocabulary.GetVocabularyById | backend/app/routers/vocabulary.py:128-137 | an entry is found exactly when one has the id, and the found one has it; otherwise 404 "Vocabulary not found" |
| Vocabulary.CreateVocabulary | backend/app/routers/vocabulary.py:140-158 | creation succeeds exactly when the field bounds hold, otherwise 422 and nothing changes; the new entry has a fresh id, the given fields and the tags or "" and is appended |
| Vocabulary.CreatedIsFound | backend/app/routers/vocabulary.py:128-158 | a created entry is then found under its id, as created |
| Vocabulary.CreatedListedFirst | backend/app/routers/vocabulary.py:68 | a created entry that matches the search and tags heads the listing, followed by the listing as it was; one that does not match leaves the listing unchanged |
| Vocabulary.Patched | backend/app/routers/vocabulary.py:176-178 | a patch writes exactly the fields the request sends and keeps the id and every field left out; `null` tags become empty |
| Vocabulary.UpdateVocabulary | backend/app/routers/vocabulary.py:161-183 | an invalid patch is 422 and a missing id 404, both changing nothing; a `null` for a NOT NULL column is 500 and changes nothing; otherwise the first entry with the id is patched in place and returned |
| Vocabulary.EmptyPatchChangesNothing | backend/app/routers/vocabulary.py:176-178 | a patch carrying no field leaves the database as it was |
| Vocabulary.UpdatedIsFound | backend/app/routers/vocabulary.py:128-183 | after a successful update, fetching the entry by its id returns the updated entry |
| Vocabulary.NullTagsClearTags | backend/app/routers/vocabulary.py:176-178 | sending only `null` tags succeeds and empties the tags, the rest of the entry unchanged |
| Vocabulary.NullExpressionFails | backend/app/models.py:93 | sending a `null` expression fails with 500 and leaves the database as it was |
| Vocabulary.DeleteVocabulary | backend/app/routers/vocabulary.py:186-201 | deletion succeeds exactly when an entry has the id, otherwise 404 and nothing changes; it removes exactly the entries with the id and, by the cascade, their cached hints |
| Vocabulary.DeletedIsGone | backend/app/routers/vocabulary.py:186-201 | after a deletion the id is no longer found and no cached hint refers to it |
| VocabularyImport.CellValue | backend/app/routers/vocabulary.py:246-249 | a present cell reads as its text stripped |
| VocabularyImport.ReadRowMeaning | backend/app/routers/vocabulary.py:245-254 | a complete row carries the stripped cells, with expression, reading and meaning non-empty; a row is unreadable exactly when a cell is absent, and complete exactly when no required cell is blank |
| VocabularyImport.ErrorText | backend/app/routers/vocabulary.py:242-276 | the row-limit message is the fixed text; a row problem reads "Row n: message" |
| VocabularyImport.ErrorTextDistinguishesLimit | backend/app/routers/vocabulary.py:242-252 | an error message is the row-limit text exactly when it reports the row limit |
| VocabularyImport.ImportRows | backend/app/routers/vocabulary.py:239-277 | every processed row is counted once, as imported or as skipped |
| VocabularyImport.StepAdd | backend/app/routers/vocabulary.py:256-273 | a complete row not yet stored is imported, and with pending rows visible its key is seen by the following rows |
| VocabularyImport.StepSkip | backend/app/routers/vocabulary.py:250-264 | an incomplete or already stored row is skipped and adds nothing |
| VocabularyImport.AddedFacts | backend/app/routers/vocabulary.py:239-277 | every imported entry comes from a complete processed row whose key was not stored, every such row is imported, and with pending rows visible no key is imported twice |
| VocabularyImport.LimitMessage | backend/app/routers/vocabulary.py:240-243 | the row-limit message is produced exactly when the file has more than 10000 rows, and then it is the last message |
| VocabularyImport.AddedFromRow | backend/app/routers/vocabulary.py:250-273 | any one imported entry has a key that was not stored and is the entry of a complete row the loop processed |
| VocabularyImport.AddedCoversRow | backend/app/routers/vocabulary.py:250-273 | any one complete processed row whose key was not stored has an imported entry with that key |
| VocabularyImport.AddedDistinct | backend/app/routers/vocabulary.py:256-273 | when the duplicate check sees the rows added earlier in the same file, no key is imported twice |
| VocabularyImport.NewRows | backend/app/routers/vocabulary.py:266-272 | one stored row per imported entry, with consecutive fresh ids and the entry's fields |
| VocabularyImport.StoredKeys | backend/app/routers/vocabulary.py:257-260 | the known keys are exactly the (expression, reading) pairs of the stored entries |
| VocabularyImport.Import | backend/app/routers/vocabulary.py:204-281 | a name not ending in ".csv" gives 400, content over 5 MB 413, undecodable content 400, all changing nothing; malformed CSV met before the row limit stops the loop gives 500 and changes nothing; an imported entry whose expression or reading exceeds 255 characters or whose meaning exceeds 1000 makes the commit fail with 500 and changes nothing; otherwise the import succeeds, appends the imported rows and reports at most 10 messages |
| VocabularyImport.LoopRows | backend/app/routers/vocabulary.py:238-243 | the rows the loop reads: all rows of a well-formed file; none for undecodable content; for malformed CSV the rows before the fault, and only when more than 10000 of them end the loop before the fault is reached |
| VocabularyImport.ImportCsv | backend/app/routers/vocabulary.py:204-281 | every row the import adds has non-empty required fields that fit their columns, and differs in key and id from every entry stored before |
| VocabularyImport.AsWrittenAddsEveryNewRow | backend/app/routers/vocabulary.py:256-273 | with the endpoint's duplicate check, every complete row the loop reads whose key was not stored is added as it is |
| VocabularyImport.OverlongRowFails | backend/app/routers/vocabulary.py:266-279 | a new complete row with an expression or reading over 255 characters or a meaning over 1000 (models.py:93-95) makes the whole upload fail with 500 and store nothing |
| VocabularyImport.RowLimitReported | backend/app/routers/vocabulary.py:240-281 | the row-limit message appears only for a file over 10000 rows, and does appear, last, when fewer than 10 messages are reported |
| VocabularyImport.NewRowsAreNew | backend/app/routers/vocabulary.py:256-273 | the rows to add have non-empty required fields and a key and id unlike any stored entry |
| VocabularyImport.KnownRowsAddNothing | backend/app/routers/vocabulary.py:256-264 | rows whose keys are all known import nothing |
| VocabularyImport.ReimportAddsNothing | backend/app/routers/vocabulary.py:204-281 | importing the same file again imports nothing and leaves the database as the first import left it |
| VocabularyImport.SameFileDuplicatesBothImported | backend/app/routers/vocabulary.py:256-273 | as written, a new row repeated in one file is imported twice, since the duplicate check does not see rows added but not yet flushed |
| VocabularyImport.SameFileDuplicateImportedOnce | backend/app/routers/vocabulary.py:256-273 | when pending rows are visible, a repeated new row is imported once and its repeat is skipped |
| VocabularyImport.ImportCsvSeeingPending | backend/app/routers/vocabulary.py:204-281 | the corrected import, whose duplicate check sees the rows added earlier in the same file, keeps (expression, reading) pairs unique |
| VocabularyImport.PendingKeepsKeysUnique | backend/app/routers/vocabulary.py:256-273 | when pending rows are visible, the stored entries together with the new rows hold no key twice |
| Quiz.Normalize | backend/app/routers/quiz.py:17-25 | the normal form holds no ideographic space, keeps the length of the stripped NFC text, and neither starts nor ends with a space |
| Quiz.GapCount | backend/app/routers/quiz.py:33-46 | 1 to 3 gaps: exactly 1 up to 4 characters, exactly 3 from 7 on, and never more gaps than characters from 3 on |
| Quiz.GapCountMonotone | backend/app/routers/quiz.py:33-46 | a longer word never gets fewer gaps |
| Quiz.FillGaps | backend/app/routers/quiz.py:63-68 | the display keeps the reading's length, shows the gap character exactly at the gap positions and the reading's character elsewhere |
| Quiz.CreateFillInBlank | backend/app/routers/quiz.py:49-69 | the puzzle's gaps are strictly increasing positions inside the reading, as many as GapCount asks, and the display blanks exactly those positions |
| Quiz.TagPool | backend/app/routers/quiz.py:78-84 | the candidates are exactly the entries whose tags match `ILIKE '%term%'` for every stripped comma-separated term, the terms unescaped |
| Quiz.TagPoolAgreesWithListing | backend/app/routers/quiz.py:81-84 | for tags without '\\', '%' or '_' the quiz draws from exactly the entries the vocabulary listing shows for those tags |
| Quiz.UnderscoreTagMatchesAnyTags | backend/app/routers/quiz.py:84 | the tag "_" is a wildcard: the quiz draws from every entry with non-empty tags |
| Quiz.UnderscorePattern | backend/app/routers/quiz.py:84 | the pattern '%_%' matches exactly the non-empty texts |
| Quiz.Draw | backend/app/routers/quiz.py:86-104 | an entry is drawn exactly when the tag pool is non-empty, and it is from the pool; the mode is fill-in-the-blank exactly when that mode was drawn and the pool has a reading of 3 or more characters, which the drawn entry then has |
| Quiz.Answer | backend/app/routers/quiz.py:163-168 | the reading in to_japanese mode; otherwise text taken from the meaning, no longer than it and holding no comma |
| Quiz.AnswerIsFirstPhrase | backend/app/routers/quiz.py:167-168 | outside to_japanese the answer is the meaning's first comma-separated phrase, and a single stripped phrase is its own answer |
| Quiz.WrongVocabs | backend/app/routers/quiz.py:159-161 | min(limit, others) entries other than the right one, from the whole vocabulary, none twice |
| Quiz.Answers | backend/app/routers/quiz.py:165-168 | one answer per entry, in order |
| Quiz.MultipleChoiceOptions | backend/app/routers/quiz.py:152-174 | the options are a permutation of the right answer and the wrong entries' answers: 1 to 4 options, the right one among them |
| Quiz.BuildQuestion | backend/app/routers/quiz.py:112-149 | a fill-in-the-blank question shows the meaning, is text, carries the reading for speech and a valid puzzle with its gap count; the other modes show their prompt, carry no puzzle, and have options exactly when multiple choice, a permutation holding the right answer |
| Quiz.GetRandomQuestion | backend/app/routers/quiz.py:72-149 | 404 exactly when no entry matches the tags; otherwise the question is about an entry of the pool |
| Quiz.FillInBlankWhenPossible | backend/app/routers/quiz.py:89-94 | when fill-in-the-blank is drawn and the pool has a reading of 3 or more characters, the question is fill-in-the-blank |
| Quiz.GetWrongOptions | backend/app/routers/quiz.py:177-192 | the request succeeds exactly for a translation mode and a count of 1 to 5, otherwise 422; the reply holds the answers of at most `count` other entries, in their drawn order |
| Quiz.MeaningParts | backend/app/routers/quiz.py:237-238 | at least one part, each already stripped |
| Quiz.AnyPartMatches | backend/app/routers/quiz.py:241-249 | true exactly when the answer equals a part or is one of a part's words |
| Quiz.CheckAnswer | backend/app/routers/quiz.py:195-262 | 404 exactly when no entry has the id; otherwise the answer is echoed, and in the Japanese modes it is right exactly when its normal form equals the reading's and the reading is returned, in the others it is graded by the English check against the meaning, which is returned |
| Quiz.ReadingAccepted | backend/app/routers/quiz.py:209-230 | in the Japanese modes an answer normalising to the reading's normal form, however spaced or cased, is right |
| Quiz.FoundIsTheEntry | backend/app/routers/quiz.py:201 | with distinct ids, looking up an entry's id finds that entry |
| Quiz.MeaningPartAccepted | backend/app/routers/quiz.py:232-256 | every comma- or semicolon-separated part of the meaning is accepted as an English answer |
| Quiz.EnglishCheckOf | backend/app/routers/quiz.py:232-262 | for an entry found by its id, the English grading applies the English check to the normalised answer and returns the meaning |
| Quiz.PartNormal | backend/app/routers/quiz.py:17-25 | a part of the lower-cased meaning that NFC leaves alone is its own normal form |
| Quiz.PartIsEnglishCorrect | backend/app/routers/quiz.py:241-244 | each part of the meaning passes the English check |
| Quiz.NormalizeFixed | backend/app/routers/quiz.py:17-25 | text that NFC, strip, lower-casing and the space replacement leave alone is its own normal form |
| Quiz.PartIsLower | backend/app/routers/quiz.py:234-238 | the parts of a lower-cased text are lower case |
| Quiz.SplitPartChars | backend/app/routers/quiz.py:237 | a part of a split holds only characters of the text |
| KanaTables.BasicChecked | backend/app/routers/kana.py:17-72 | the basic rows (vowels up to the W-row and N) list the same romaji in both tables, with no romaji twice |
| KanaTables.DakutenChecked | backend/app/routers/kana.py:73-93 | the voiced rows (G, Z, D, B) list the same romaji in both tables, with no romaji twice |
| KanaTables.HandakutenChecked | backend/app/routers/kana.py:94-99 | the P-row lists the same romaji in both tables, with no romaji twice |
| KanaTables.YoonChecked | backend/app/routers/kana.py:100-133 | the contracted sounds list the same romaji in both tables, with no romaji twice |
| KanaTables.TablesWellFormed | backend/app/routers/kana.py:16-255 | both tables hold 104 entries, list the same romaji at every position, and hold no romaji twice |
| Kana.GetAllKana | backend/app/routers/kana.py:258-270 | the reply holds both tables, 104 entries each, with the same romaji in the same order and none twice |
| Kana.ParseKanaType | backend/app/routers/kana.py:275 | a parsed type is named exactly by the query string |
| Kana.ParseKanaTypeExact | backend/app/routers/kana.py:275 | each type's name parses back to it, and only "hiragana", "katakana" and "mixed" parse |
| Kana.RequestedCount | backend/app/routers/kana.py:280-283 | a given count is used as is; without one the stored round size is read, 20 when none is stored, and a stored value that is not an integer is a 500 |
| Kana.RoundSizeFromSetting | backend/app/routers/kana.py:282-283 | a stored round size written as a number is the count used |
| Kana.RoundSizeFollowsSettings | backend/app/routers/settings.py:64-84 | after an administrator sets the round size to n, rounds without a count have n kana |
| Kana.DefaultRoundSizeAgrees | backend/app/routers/settings.py:13-16 | the created default setting gives the same round size, 20, as the missing setting |
| Kana.WithCoins | backend/app/routers/kana.py:297-303 | one item per drawn position, with that position's romaji and either its hiragana or its katakana |
| Kana.MixedSelection | backend/app/routers/kana.py:285-303 | a mixed round has the asked size, every item is a table entry's romaji with one of its two spellings, and no romaji occurs twice |
| Kana.DrawPositions | backend/app/routers/kana.py:295 | n distinct positions inside the table |
| Kana.WithCoinsFacts | backend/app/routers/kana.py:297-303 | distinct positions give items drawn from the tables with distinct romaji |
| Kana.WithCoinsRomaji | backend/app/routers/kana.py:297-303 | the romaji of the mixed items are the romaji at the drawn positions |
| Kana.MixedDrawsRomaji | backend/app/routers/kana.py:288-295 | the mixed round's romaji are exactly a sample of the dictionary's keys |
| Kana.DictKeys | backend/app/routers/kana.py:288-292 | the dictionary's keys hold no duplicate and are exactly the table's romaji |
| Kana.DictLookup | backend/app/routers/kana.py:288-289 | a lookup finds a value exactly for a romaji of the table |
| Kana.DictOfDistinctTable | backend/app/routers/kana.py:288-292 | for a table without repeated romaji the keys are its romaji in order and each romaji looks up its own kana |
| Kana.DictKeysOfDistinct | backend/app/routers/kana.py:292 | for a table without repeated romaji the keys are its romaji in order |
| Kana.DictLookupOfDistinct | backend/app/routers/kana.py:288-289 | for a table without repeated romaji each romaji looks up its own kana |
| Kana.Selection | backend/app/routers/kana.py:285-306 | every round type has the asked size, no romaji twice, and items drawn from the table of that type (either table for mixed) |
| Kana.GetRandomKana | backend/app/routers/kana.py:273-311 | an unknown type or a count outside 1 to 109 is 422; otherwise the round succeeds exactly when the resolved size is an integer of at least 0, holds min(size, 104) items of the requested type with distinct romaji, and reports that number |
| Kana.SampleTable | backend/app/routers/kana.py:305-306 | a single-table round has the asked size, entries of that table, and no romaji twice |
| Kana.DistinctRomajiIsDistinctKeys | backend/app/routers/kana.py:288-292 | distinct romaji in a table is the same as distinct keys in its romaji list |
| TagPreferences.RowIndex | backend/app/routers/user_preferences.py:18-20 | a found row belongs to the user; none is found exactly when the user has no row |
| TagPreferences.ParseTags | backend/app/routers/user_preferences.py:26-30 | every parsed tag is non-blank, stripped and comma-free, and an empty stored string gives no tags |
| TagPreferences.StrippedPartsStorable | backend/app/routers/user_preferences.py:28 | stripping non-blank comma-free parts gives storable tags |
| TagPreferences.GetPreferences | backend/app/routers/user_preferences.py:12-32 | reading changes nothing and always succeeds; no row gives no tags, otherwise the stored string parsed |
| TagPreferences.UpdatePreferences | backend/app/routers/user_preferences.py:35-62 | the reply echoes the tags; afterwards the user's row holds them joined by commas, a row being created when there was none |
| TagPreferences.UpdateFindsSameRow | backend/app/routers/user_preferences.py:42-57 | updating the found row keeps it the user's first row |
| TagPreferences.FirstRowOfUser | backend/app/routers/user_preferences.py:50-55 | a row appended for a user without one is then found as that user's row |
| TagPreferences.UpdateKeepsOnePerUser | backend/app/routers/user_preferences.py:42-57 | saving keeps at most one row per user |
| TagPreferences.UpdateLeavesOthers | backend/app/routers/user_preferences.py:35-62 | saving one user's tags leaves every other user's tags as they read before |
| TagPreferences.FindIndexSkipsAppended | backend/app/routers/user_preferences.py:50-55 | a row appended for another user does not change which row a lookup finds |
| TagPreferences.ParseJoin | backend/app/routers/user_preferences.py:26-47 | storable tags joined by commas parse back to the same tags |
| TagPreferences.JoinNonEmpty | backend/app/routers/user_preferences.py:27-47 | tags led by a non-empty one join to a non-empty string |
| TagPreferences.FilterAllKept | backend/app/routers/user_preferences.py:28 | no storable tag is dropped as blank |
| TagPreferences.GetAfterUpdate | backend/app/routers/user_preferences.py:12-62 | reading after saving storable tags gives back exactly those tags |
| TagPreferences.BlankTagDropped | backend/app/routers/user_preferences.py:28-47 | a blank tag joined into the stored string is dropped when read |
| TagPreferences.BlankTagIsLost | backend/app/routers/user_preferences.py:12-62 | saving ["a", " "] replies with both tags, yet a later read gives only ["a"] |
| Shuffle.Swap | frontend/src/components/LinesGame.tsx:28 | exchanges exactly the two positions and keeps the elements as a multiset |
| Shuffle.ShuffleBelow | frontend/src/components/LinesGame.tsx:26-29 | the Fisher-Yates passes below `top` give a permutation of the input, distinct elements staying distinct |
| Shuffle.Shuffle | frontend/src/components/LinesGame.tsx:24-31 | a new sequence of the same length that is a permutation of the input: the same multiset and the same members |
| Shuffle.ShuffleCommutesWithMap | frontend/src/components/LinesGame.tsx:24-31 | shuffling moves positions only, so shuffling and then mapping a field equals mapping and then shuffling with the same choices |
| Shuffle.ShuffleKeepsDistinctKeys | frontend/src/components/LinesGame.tsx:24-31 | a shuffle keeps distinct keys distinct |
| Shuffle.Sample | backend/app/routers/kana.py:306 | `random.sample`: k elements of the population, none drawn twice, a sub-multiset of it |
| Shuffle.Choice | backend/app/routers/quiz.py:87 | `random.choice`: the chosen value is one of the options |
| LinesGame.LeftCards | frontend/src/components/LinesGame.tsx:64-69 | one left card per word in vocabulary order, with id `left-i`, the word's id and the reading or the meaning depending on the side |
| LinesGame.RightCards | frontend/src/components/LinesGame.tsx:72-77 | one right card per word, with id `right-i`, the word's id and the other text |
| LinesGame.Load | frontend/src/components/LinesGame.tsx:46-88 | a load clears the lines, the selection and the count; an empty reply leaves the game loading with the old cards, a failed one goes to ready with the old cards, otherwise the left column is the words in order and the right column a permutation of the right cards |
| LinesGame.RightCardsKeepVocab | frontend/src/components/LinesGame.tsx:72-79 | the shuffled right column holds the same word ids as the reply, as a multiset |
| LinesGame.Start | frontend/src/components/LinesGame.tsx:94-96 | only the phase changes, to playing |
| LinesGame.LeftClick | frontend/src/components/LinesGame.tsx:102-115 | ignored outside playing; on a connected card it removes exactly the lines from that card and clears the selection; on an unconnected card it only selects it |
| LinesGame.RightClick | frontend/src/components/LinesGame.tsx:117-137 | ignored outside playing or without a selection; otherwise the new line is added, every other line either stays or was on the same right card or the selected left card, every line not touching either is kept, and the selection is cleared |
| LinesGame.AddLineKeepsOneToOne | frontend/src/components/LinesGame.tsx:124-133 | adding a line between two free cards keeps the lines one-to-one |
| LinesGame.FilterKeepsOneToOne | frontend/src/components/LinesGame.tsx:109 | removing lines keeps them one-to-one |
| LinesGame.LeftClickKeepsValid | frontend/src/components/LinesGame.tsx:102-115 | a left click keeps every card on at most one line and the selected card unconnected |
| LinesGame.RightClickKeepsValid | frontend/src/components/LinesGame.tsx:117-137 | a right click keeps every card on at most one line on both sides |
| LinesGame.LoadAndStartKeepValid | frontend/src/components/LinesGame.tsx:46-96 | loading and starting keep the game's invariant |
| LinesGame.CardById | frontend/src/components/LinesGame.tsx:144-145 | `find` by id: the card found has that id and is in the column, and nothing is found exactly when no card has it |
| LinesGame.Check | frontend/src/components/LinesGame.tsx:139-166 | nothing unless every left card is connected; then each line is marked correct exactly when its ends carry the same word, the count is the number of correct lines, at most the number of cards, the game shows the result, and the score is sent only for a logged-in player with a count above 0 |
| LinesGame.CheckedCount | frontend/src/components/LinesGame.tsx:155 | the marked lines hold as many correct ones as there are matching lines |
| LinesGame.Marked | frontend/src/components/LinesGame.tsx:143-153 | each line keeps its ends and is marked with whether they match |
| LinesGame.CheckKeepsValid | frontend/src/components/LinesGame.tsx:139-158 | grading keeps the lines one-to-one |
| LinesGame.LeftCardCarries | frontend/src/components/LinesGame.tsx:64-69 | the left card `left-i` carries the i-th word |
| LinesGame.RightCardCarries | frontend/src/components/LinesGame.tsx:72-79 | in any permutation of the right cards, `right-i` carries the i-th word |
| LinesGame.IndexLinks | frontend/src/components/LinesGame.tsx:126 | the lines joining `left-i` to `right-i` for every i |
| LinesGame.LinkingByIndexIsPerfect | frontend/src/components/LinesGame.tsx:139-158 | however the right column is shuffled, joining each left card to the right card of the same word scores every word |
| MemoryGame.JapaneseText | frontend/src/components/MemoryGame.tsx:98-100 | the reading alone when it equals the expression, otherwise the reading followed by the expression in parentheses |
| MemoryGame.Pairs | frontend/src/components/MemoryGame.tsx:94-120 | two cards per word, in order |
| MemoryGame.PairsInOrder | frontend/src/components/MemoryGame.tsx:102-119 | the word's Japanese card comes first and its meaning card second, both face down and unmatched |
| MemoryGame.PairsShape | frontend/src/components/MemoryGame.tsx:102-119 | every card is face down, unmatched, carries its word's id, and is a Japanese card exactly when its id is a `jp-` id |
| MemoryGame.PairsDistinctIds | frontend/src/components/MemoryGame.tsx:103-113 | no two cards of the deck share an id |
| MemoryGame.Load | frontend/src/components/MemoryGame.tsx:72-129 | a load resets the flipped cards, pairs, moves and check; an empty reply leaves the game loading with no cards, a failed one goes to ready with no cards, otherwise the deck is a permutation of the pairs |
| MemoryGame.LoadedDeck | frontend/src/components/MemoryGame.tsx:94-123 | every loaded card is face down and unmatched, belongs to a word of the reply, and both that word's cards are in the deck |
| MemoryGame.Start | frontend/src/components/MemoryGame.tsx:138-140 | only the phase changes, to playing |
| MemoryGame.IdIndex | frontend/src/components/MemoryGame.tsx:149 | the position of a card with the id, or none exactly when no card has it |
| MemoryGame.CardWithId | frontend/src/components/MemoryGame.tsx:149 | `find` by id: the first card with the id, when there is one |
| MemoryGame.TurnUp | frontend/src/components/MemoryGame.tsx:156-158 | exactly the cards with that id turn face up |
| MemoryGame.Schedule | frontend/src/components/MemoryGame.tsx:168-209 | nothing is scheduled when the first card is gone; otherwise a pair of the second card's word exactly when the two cards share a word and differ in side, and a turn-back of exactly the two cards otherwise |
| MemoryGame.Click | frontend/src/components/MemoryGame.tsx:146-212 | a click outside playing, during a check, on a missing, face-up or matched card, or with two cards up changes nothing; otherwise the card turns up and its id is appended, and the second card adds one move, starts the check and schedules its resolution |
| MemoryGame.MarkMatched | frontend/src/components/MemoryGame.tsx:179-181 | exactly the cards of that word become matched |
| MemoryGame.TurnDown | frontend/src/components/MemoryGame.tsx:203-205 | exactly the cards with those ids turn face down |
| MemoryGame.Resolve | frontend/src/components/MemoryGame.tsx:178-209 | a resolution clears the flipped cards and the check; a pair marks that word's cards matched and adds one pair, finishing the game and sending 15 for a logged-in player exactly when the count reaches 15; a miss turns both cards down and keeps the pairs |
| MemoryGame.TurnUpKeepsOpen | frontend/src/components/MemoryGame.tsx:156-158 | turning a card up keeps every face-up unmatched card so |
| MemoryGame.TurnUpOpens | frontend/src/components/MemoryGame.tsx:156-158 | the clicked card is face up and unmatched afterwards |
| MemoryGame.ClickKeepsValid | frontend/src/components/MemoryGame.tsx:146-166 | a click keeps at most two distinct face-up cards, checking exactly when two are up, with a resolution scheduled exactly then |
| MemoryGame.ResolveKeepsValid | frontend/src/components/MemoryGame.tsx:178-209 | a resolution keeps the game's invariant |
| MemoryGame.LoadAndStartKeepValid | frontend/src/components/MemoryGame.tsx:72-140 | a loaded deck satisfies the invariant and has distinct card ids; starting keeps the invariant |
| MemoryGame.LoadTally | frontend/src/components/MemoryGame.tsx:72-129 | after a load both cards of a word agree on being matched and the pair count is the number of matched words |
| MemoryGame.LoadedWords | frontend/src/components/MemoryGame.tsx:94-123 | the words on the table are exactly the words of the reply |
| MemoryGame.SameWords | frontend/src/components/MemoryGame.tsx:156-158 | changing only the faces keeps the words and the matched words |
| MemoryGame.ClickKeepsTally | frontend/src/components/MemoryGame.tsx:146-166 | a click keeps the pair count equal to the number of matched words |
| MemoryGame.MarkAddsWord | frontend/src/components/MemoryGame.tsx:179-181 | matching an unmatched word adds exactly that word to the matched words |
| MemoryGame.ResolveKeepsTally | frontend/src/components/MemoryGame.tsx:178-209 | a resolution keeps the pair count equal to the number of matched words |
| MemoryGame.PairsAtMostWords | frontend/src/components/MemoryGame.tsx:183-189 | the pair count never exceeds the number of words on the table |
| MemoryGame.FewWordsNeverFinish | frontend/src/components/MemoryGame.tsx:189 | with fewer than 15 words on the table the game never finishes |
| Countdown.PadTwo | frontend/src/components/SaladGame.tsx:252 | `padStart(2, '0')`: two characters, the text right-aligned after zeros, longer text unchanged |
| Countdown.FormatTime | frontend/src/components/SaladGame.tsx:249-253 | `m:ss`: digits around one colon with two digits after it |
| Countdown.PaddedSeconds | frontend/src/components/SaladGame.tsx:251-252 | the seconds part is two digits reading back as the seconds |
| Countdown.FormatTimeReadsBack | frontend/src/components/SaladGame.tsx:249-253 | the text splits at the colon into minutes and seconds below 60 that add up to the given time |
| Countdown.FormatTimeInjective | frontend/src/components/SaladGame.tsx:249-253 | different times are never shown alike |
| Countdown.Tick | frontend/src/app/register/page.tsx:49-55 | the cooldown goes down by one and stops at zero |
| Countdown.TicksCountDown | frontend/src/app/register/page.tsx:45-59 | after n ticks the cooldown is n less, or zero |
| SaladGame.Cards | frontend/src/components/SaladGame.tsx:115-128 | one unmatched card per kana item, with its romaji and kana, the id built from the position |
| SaladGame.Load | frontend/src/components/SaladGame.tsx:107-141 | a failed load only goes to ready; otherwise both columns have one card per item, the romaji column is a permutation of the item cards, nothing is matched, the counts are zero and the full time is left |
| SaladGame.LoadedColumnsAgree | frontend/src/components/SaladGame.tsx:115-131 | the two columns hold the same romaji as the reply, as multisets |
| SaladGame.RomajiColumn | frontend/src/components/SaladGame.tsx:115-131 | the shuffled romaji column keeps the reply's romaji |
| SaladGame.KanaColumn | frontend/src/components/SaladGame.tsx:122-128 | the kana column built from the shuffled items keeps the reply's romaji |
| SaladGame.Start | frontend/src/components/SaladGame.tsx:177-179 | only the phase changes, to playing |
| SaladGame.Restart | frontend/src/components/SaladGame.tsx:181-188 | a restart is a load followed by playing, whatever the load's outcome |
| SaladGame.OnBoard | frontend/src/components/SaladGame.tsx:258 | the draggable cards are exactly the unmatched romaji cards |
| SaladGame.DragStart | frontend/src/components/SaladGame.tsx:191-194 | while playing, dragging a card on the board holds it; nothing else changes |
| SaladGame.MarkCard | frontend/src/components/SaladGame.tsx:214-216 | exactly the romaji card with that id becomes matched |
| SaladGame.MarkRomaji | frontend/src/components/SaladGame.tsx:217-219 | exactly the kana cards with that romaji become matched |
| SaladGame.Drop | frontend/src/components/SaladGame.tsx:201-247 | without a dragged card or onto a matched kana card only the drag is cleared; a drop matches exactly when the romaji agree, then marks the dragged card and every kana card with that romaji and adds one to the count, finishing and sending the score for a logged-in player when every romaji card is matched; a mismatch adds one error and changes no card |
| SaladGame.Tick | frontend/src/components/SaladGame.tsx:148-175 | while playing with time left a tick takes one second off; the last second sets zero and times out, sending the matched count for a logged-in player only when it is above 0 |
| SaladGame.MarkCardCount | frontend/src/components/SaladGame.tsx:214-222 | matching one unmatched card with a unique id adds exactly one matched card |
| SaladGame.MarkCardKeepsIds | frontend/src/components/SaladGame.tsx:214-216 | matching keeps the card ids |
| SaladGame.DropKeepsValid | frontend/src/components/SaladGame.tsx:201-247 | a drop keeps the matched count equal to the matched romaji cards, with distinct ids |
| SaladGame.EventsKeepValid | frontend/src/components/SaladGame.tsx:148-194 | dragging, ticking and starting keep the invariant |
| SaladGame.LoadKeepsValid | frontend/src/components/SaladGame.tsx:107-141 | a load with no card held keeps the invariant |
| SaladGame.FinishedMeansAllMatched | frontend/src/components/SaladGame.tsx:221-226 | the matched count never exceeds the romaji cards, and a drop that finishes the game has matched every romaji card |
| SaladGame.TickCountsDown | frontend/src/components/SaladGame.tsx:148-158 | a tick takes one second off and times out exactly when none is left |
| FillInBlank.Reset | frontend/src/hooks/quiz/useFillInBlank.ts:20-23 | exactly n empty slots |
| FillInBlank.SlotValue | frontend/src/hooks/quiz/useFillInBlank.ts:25-35 | a converted value that is hiragana is kept to its first two characters, anything else is stored as typed |
| FillInBlank.GapChange | frontend/src/hooks/quiz/useFillInBlank.ts:25-47 | only the edited slot changes, to the slot value of the input |
| FillInBlank.CompleteAfterFilling | frontend/src/hooks/quiz/useFillInBlank.ts:72-75 | no set of empty slots is complete, and typing hiragana into every slot completes it |
| FillInBlank.FillAll | frontend/src/hooks/quiz/useFillInBlank.ts:25-41 | editing the slots from `from` on keeps their number |
| FillInBlank.FillAllSlots | frontend/src/hooks/quiz/useFillInBlank.ts:25-41 | the edited slots hold their slot values and the earlier ones are untouched |
| FillInBlank.Assign | frontend/src/hooks/quiz/useFillInBlank.ts:66 | JavaScript array assignment: in range it replaces, past the end it grows the array, a negative index leaves the characters alone |
| FillInBlank.Pieces | frontend/src/hooks/quiz/useFillInBlank.ts:63 | `split('')`: one piece per character |
| FillInBlank.PlaceKeepsOthers | frontend/src/hooks/quiz/useFillInBlank.ts:62-70 | positions that are not gaps keep their character |
| FillInBlank.PlaceFillsGaps | frontend/src/hooks/quiz/useFillInBlank.ts:62-70 | when every slot is filled with the target's character at its gap and the other positions already agree, the word is the target |
| FillInBlank.ConcatPieces | frontend/src/hooks/quiz/useFillInBlank.ts:63-69 | joining the split characters gives the text back |
| FillInBlank.RightSlots | frontend/src/hooks/quiz/useFillInBlank.ts:62-70 | the slots holding the reading's character at each gap |
| FillInBlank.FillInBlankRoundTrip | frontend/src/hooks/quiz/useFillInBlank.ts:62-70 | filling the puzzle built from a reading with the reading's characters at its gaps reconstructs the reading |
| FillInBlank.EmptySlotsShowDisplay | frontend/src/hooks/quiz/useFillInBlank.ts:65 | with every slot empty the reconstruction is the display text |
| FillInBlank.EmptySlotsKeepPieces | frontend/src/hooks/quiz/useFillInBlank.ts:65-66 | empty slots replace nothing |
| QuizSession.LoadQuestion | frontend/src/hooks/quiz/useQuizState.ts:38-55 | a load clears the answer, result, hint and hint flag and keeps the stats; a success asks the new question, a failure shows its error |
| QuizSession.Request | frontend/src/hooks/quiz/useQuizState.ts:79-83 | the request carries the question's id and mode and a non-empty trimmed answer |
| QuizSession.SubmitAnswer | frontend/src/hooks/quiz/useQuizState.ts:75-104 | nothing without a question or with a blank answer; a checked answer shows the result, adds one to the total and one to the correct count exactly when right, and sends the new correct count for a logged-in player only when right; a failed check shows its error and keeps the stats |
| QuizSession.GetHint | frontend/src/hooks/quiz/useQuizState.ts:106-119 | nothing without a question, after a hint or while one loads; a success shows the hint and uses it up, a failure shows the fixed apology and leaves it unused |
| QuizSession.KeyDown | frontend/src/hooks/quiz/useQuizState.ts:63-73 | Enter on a shown result loads the next question; any other key or phase changes nothing |
| QuizSession.TransitionsKeepStats | frontend/src/hooks/quiz/useQuizState.ts:75-104 | every transition keeps correct at most total, and neither count goes down |
| QuizSession.AnswersCounted | frontend/src/hooks/quiz/useQuizState.ts:38-104 | over any run of rounds, each a question load followed by an answer check, the total grows by the number of answers sent (blank ones are not) and the correct count by the number of those checked right |
| QuizSession.HintOnce | frontend/src/hooks/quiz/useQuizState.ts:106-119 | after a successful hint a second request changes nothing, and the next question makes the hint available again |
| RegisterPage.ReadParams | frontend/src/app/register/page.tsx:30-42 | a non-empty `email` parameter sets the decoded address, a non-empty token parameter sets the token, and either marks the form invited |
| RegisterPage.EditEmail | frontend/src/app/register/page.tsx:312-316 | an invited form's address cannot be edited |
| RegisterPage.Requirements | frontend/src/app/register/page.tsx:67-73 | the five checks: at least 8 characters, an upper-case letter, a lower-case letter, a digit, and a non-empty confirmation that matches |
| RegisterPage.RequirementsMatchServer | frontend/src/app/register/page.tsx:67-73 | the button is enabled for a password of at most 128 characters exactly when the server's password rules hold and the confirmation matches |
| RegisterPage.Submit | frontend/src/app/register/page.tsx:75-104 | a filled honeypot goes to the not-found page without a request; mismatched passwords only show an error; otherwise the registration is sent with the token when there is one, and a success starts the resend cooldown |
| RegisterPage.Resend | frontend/src/app/register/page.tsx:106-124 | nothing while the cooldown runs; a success shows the notice and restarts the 120-second cooldown, a failure shows its message |
| RegisterPage.HideNotice | frontend/src/app/register/page.tsx:117 | only the notice is hidden |
| RegisterPage.Tick | frontend/src/app/register/page.tsx:45-59 | only the cooldown changes, by one tick |
| RegisterPage.CooldownHoldsResend | frontend/src/app/register/page.tsx:45-59 | for 120 ticks after a resend the button does nothing; from then on a resend goes through |
| RegisterPage.TickedCounts | frontend/src/app/register/page.tsx:45-59 | after n ticks only the cooldown has changed, to n less or zero |
| VerifyPage.EmptySlots | frontend/src/app/verify/page.tsx:91 | six empty slots |
| VerifyPage.Open | frontend/src/app/verify/page.tsx:13 | the address is the `email` parameter or empty, and the slots start empty |
| VerifyPage.DigitsOf | frontend/src/app/verify/page.tsx:30 | the input's ASCII digits and nothing else |
| VerifyPage.SlotValue | frontend/src/app/verify/page.tsx:30 | at most one digit, empty exactly when the input has no digit, and taken from the input |
| VerifyPage.CodeLengthCounts | frontend/src/app/verify/page.tsx:65 | the joined code is all digits with one per filled slot |
| VerifyPage.CodeCompleteIffFilled | frontend/src/app/verify/page.tsx:65-66 | over six valid slots the code has six characters exactly when every slot is filled |
| VerifyPage.InputChange | frontend/src/app/verify/page.tsx:28-45 | only the edited slot changes, to the last digit typed; the code is submitted exactly when a digit lands in the sixth slot with every slot filled |
| VerifyPage.Paste | frontend/src/app/verify/page.tsx:53-62 | six or more pasted digits fill the slots with the first six and submit them; fewer change nothing |
| VerifyPage.PastedCodeJoins | frontend/src/app/verify/page.tsx:57-60 | the slots of a pasted code join back to it |
| VerifyPage.Submit | frontend/src/app/verify/page.tsx:64-96 | only a six-character code is sent; a success goes to the dashboard for an administrator and to the quiz otherwise, a failure shows its error and empties the slots |
| VerifyPage.Resend | frontend/src/app/verify/page.tsx:98-115 | a success shows the notice and empties the slots, a failure shows its message |
| VerifyPage.HideNotice | frontend/src/app/verify/page.tsx:109-110 | the timer hides the resend notice and changes nothing else |
| VerifyPage.NoticeHiddenAfterResend | frontend/src/app/verify/page.tsx:98-115 | after a successful resend and the timer, the slots stay empty, no error shows and the notice is gone |
| VerifyPage.EventsKeepSlotsValid | frontend/src/app/verify/page.tsx:28-115 | every event keeps six slots of at most one digit |
| VerifyPage.PasteKeepsSlotsValid | frontend/src/app/verify/page.tsx:53-62 | a paste keeps six one-digit slots |
| VerifyPage.TypingLastDigitSubmits | frontend/src/app/verify/page.tsx:28-45 | typing the sixth digit after five filled slots submits the six digits in order |
| VerifyPage.ConcatSnoc | frontend/src/app/verify/page.tsx:65 | joining slots with one more appended appends its text |
| ConfirmEmailPage.Open | frontend/src/app/confirm-email/page.tsx:45-64 | the page settles once: confirmed exactly for a non-empty token the server accepts, otherwise failed with the fixed message for a missing token or the server's message |
| ConfirmEmailPage.EditEmail | frontend/src/app/confirm-email/page.tsx:183-186 | the address cannot be edited while the cooldown runs |
| ConfirmEmailPage.Resend | frontend/src/app/confirm-email/page.tsx:66-82 | nothing without an address or during the cooldown; a success shows the notice and starts the 120-second cooldown; a failure says nothing and only hides the notice |
| ConfirmEmailPage.HideNotice | frontend/src/app/confirm-email/page.tsx:76 | only the notice is hidden |
| ConfirmEmailPage.Tick | frontend/src/app/confirm-email/page.tsx:23-37 | only the cooldown changes, by one tick |
| ConfirmEmailPage.StatusSettled | frontend/src/app/confirm-email/page.tsx:45-82 | no event after opening changes the confirmation status |
| ConfirmEmailPage.ResendsSpacedByCooldown | frontend/src/app/confirm-email/page.tsx:66-82 | fewer than 120 ticks after a successful resend another resend does nothing, whatever the address |
| InvitationsPage.GetStatus | frontend/src/app/admin/invitations/page.tsx:118-130 | accepted whenever accepted; otherwise expired exactly when the expiry lies before now, and pending otherwise |
| InvitationsPage.CountsAddUp | frontend/src/app/admin/invitations/page.tsx:212-237 | the accepted and pending cards count the rows shown with that status, and with the expired rows they make up the total |
| InvitationsPage.Load | frontend/src/app/admin/invitations/page.tsx:36-52 | without a token the page goes to the login page; otherwise it shows the list, or the fixed load error and an empty list |
| InvitationsPage.Send | frontend/src/app/admin/invitations/page.tsx:59-76 | a blank address sends nothing; otherwise the trimmed address is sent and a success puts the invitation first and empties the field |
| InvitationsPage.Delete | frontend/src/app/admin/invitations/page.tsx:78-91 | a success drops the rows with that id and reports it, a failure only shows its message |
| InvitationsPage.DeleteRemovesExactly | frontend/src/app/admin/invitations/page.tsx:84 | a deletion keeps exactly the rows with another id, losing as many rows as had that id |
| InvitationsPage.Resend | frontend/src/app/admin/invitations/page.tsx:93-106 | a success puts the reply in place of every row with that id and keeps the others, a failure only shows its message |
| InvitationsPage.ResendRenews | frontend/src/app/admin/invitations/page.tsx:93-130 | resending an expired, unaccepted invitation that the server renews shows it as pending again and leaves every other row's status alone |
| TagFilter.Toggle | frontend/src/components/TagFilter.tsx:31-37 | a selected tag is removed everywhere, exactly the other tags staying selected; an unselected tag is appended at the end |
| TagFilter.ClearAll | frontend/src/components/TagFilter.tsx:39-41 | nothing stays selected |
| TagFilter.ToggleTwiceRestores | frontend/src/components/TagFilter.tsx:31-37 | selecting and then deselecting a tag restores the selection, order included |
| TagFilter.ToggleKeepsDistinct | frontend/src/components/TagFilter.tsx:31-37 | toggling never puts a tag in the selection twice |
| TagFilter.ToggleRemovesInPlace | frontend/src/components/TagFilter.tsx:31-37 | deselecting a tag held once leaves the other tags in their order |
| VocabularyTable.Previous | frontend/src/components/VocabularyTable.tsx:428 | one page back, never below page 1, nothing else changed |
| VocabularyTable.Next | frontend/src/components/VocabularyTable.tsx:436 | one page on, never past the last page, nothing else changed |
| VocabularyTable.PagerStepsByOne | frontend/src/components/VocabularyTable.tsx:421-437 | on a page in range an enabled button moves exactly one page and stays in range |
| VocabularyTable.NextPastTheEndGoesBack | frontend/src/components/VocabularyTable.tsx:436-437 | when the page is past the last one, Next stays enabled and moves back to the last page |
| VocabularyTable.SubmitSearch | frontend/src/components/VocabularyTable.tsx:58-86 | a search goes to page 1; it loads the page it was on and, when that was not page 1, page 1 as well |
| VocabularyTable.EditSearch | frontend/src/components/VocabularyTable.tsx:58-80 | typing changes only the search text and reloads the current page with the new text, without going back to page 1 |
| VocabularyTable.Loaded | frontend/src/components/VocabularyTable.tsx:62-73 | a reply sets the page count and clears the error; a failure keeps the count and shows its message; the page and search are kept |
| VocabularyTable.TypedSearchOutrunsListing | frontend/src/components/VocabularyTable.tsx:58-80 | after typing on page p, a filtered listing of fewer pages than p leaves the table out of range, and Next moves back to the last page |
| VocabularyTable.AddNew | frontend/src/components/VocabularyTable.tsx:141-158 | nothing without a token; a form missing the expression, reading or meaning only shows the fixed error; otherwise the entry is sent, and a success empties and closes the form and reloads |
| VocabularyTable.AddFormMatchesSchema | frontend/src/components/VocabularyTable.tsx:144-147 | within the server's length bounds the form sends an entry exactly when the server's field rules accept it |
| VocabularyTable.DisplayTags | frontend/src/components/VocabularyTable.tsx:388 | the chips are non-empty and hold no space |
| VocabularyTable.DisplayTagsKeepText | frontend/src/components/VocabularyTable.tsx:388 | the chips hold every character of the tags except the spaces, in order |

## Left out

**Backend operations**

- `get_hint` and `tts` in backend/app/routers/quiz.py:265-362 call the OpenAI service. Only the cache tables they fill are modelled, through the administrator's cache endpoints.
- `list_users` in the administrator router is a plain listing and is not modelled.
- `require_admin`'s 403 path and bearer-token decoding (JWT) are outside the model. Endpoints are called as the already authenticated user.

**Side effects, services and runtime**

- Every audit call inside an endpoint is left out: writing the log line, and the e-mails it sends.
  - `Audit.LogAuditEvent` models the line's text.
- Rate limiting is left out.
- `Cache-Control` headers are left out.
- Asynchronous execution is left out.
- Sending e-mail is left out.
  - The mailers' success is not modelled.
  - `Admin.ResendInvitation` and `Auth.ResendVerification` state only the database change and the reply.

**Validation**

- Pydantic's `EmailStr` is left out, both its syntax check and the address it returns. Pydantic v2 hands the endpoint the normalised address: surrounding white space is stripped, the domain is lower-cased, the text is Unicode-normalised, and the `Name <address>` form is unwrapped. The model passes the address on exactly as sent. So a login as `" user@EXAMPLE.com"` finds the account `user@example.com` in the code but not in the model. The affected endpoints:
  - Auth.Register: the account is stored, and checked for duplicates, under the address as sent.
  - Auth.Login: the account is looked up by the address as sent.
  - Auth.VerifyMfa: the account is looked up by the address as sent.
  - Auth.ResendMfa: the account is looked up by the address as sent.
  - Auth.ResendVerification: the account is looked up by the address as sent.
  - Admin.CreateInvitation: only its own lower-casing is modelled.
- The `\d` in the password rule matches Unicode digits in Python. The model uses ASCII digits, and so does the verify page's `\D`.
- Python's `int()` also accepts digit-group underscores and non-ASCII Unicode digits. `Strings.ParseInt` strips surrounding whitespace, as `int()` does, and then accepts an optional sign and ASCII digits only.
- Kana.ParseKanaType: the `type` query's regex is modelled as exact equality with one of the three names.

**Database**

- Column length limits are not enforced on stored settings and tags. For expression, reading and meaning the endpoints' schemas keep within them, and the CSV import's failing commit is modelled.
- NULL tags are modelled as the empty string. So the listing's tag filter, which excludes NULL rows, cannot be told apart from an empty-tag row.
- UUID collisions are left out.
- `ORDER BY func.random()` is a permutation parameter. Timestamps are not modelled: tables are kept in creation order, so `created_at DESC` is the stored order reversed.
- Admin.ListHintCache: states which hints are listed, not their newest-first order.

**Text and randomness**

- Unicode case mapping, NFC and the regexes are not defined. Lower-casing is ASCII. NFC, `\b\w+\b` and the word-boundary search are parameters that no lemma constrains beyond what is stated.
- The CSV parser is a parameter returning a `CsvRead`: the rows, undecodable content, or the rows read before a malformed line. A malformed line raises outside the per-row handler and gives a 500, unless the row limit ends the loop first.
- The Salad game's `sort(() => Math.random() - 0.5)` is modelled as an arbitrary permutation, the same as `shuffleArray`. The model does not describe its skewed distribution.
- JavaScript `trim` is approximated by `Strings.Strip`, which uses Python's whitespace set. This affects `QuizSession.Sends` and `InvitationsPage.Send`.
- JavaScript strings are UTF-16. `split('')` and `slice` are modelled per character, so surrogate pairs are not split.

**Frontend**

- Pages:
  - Focus movement is left out: the fill-in-the-blank slots, and Backspace on the verify page.
  - Storage of the login token is left out.
  - The administrator's users, cache, settings and dashboard pages, and the administrator landing page, are left out. The invitation page is modelled in `InvitationsPage` and the vocabulary table in `VocabularyTable`.
  - Sounds, drag images and line coordinates are left out.
  - The vocabulary table's edit, delete and CSV upload handlers are left out. They only forward to the endpoints modelled in `Vocabulary` and `VocabularyImport`.
- FillInBlank.GapChange: requires an index inside the slots. The hook would write past the end of the array.
- SaladGame.Load: the time limit is part of the state. The settings fetch and its `parseInt` are left out.
- The preference fetch that precedes the Memory game's load is left out. The selected tags only reach the vocabulary request.

**Deliberately weaker contracts**

- Quiz.Normalize: states the length and the missing ideographic spaces and outer spaces, not the full character-wise result. `Quiz.NormalizeFixed` covers the fixed points.
- Quiz.Answer: states only that the answer is comma-free text no longer than the meaning. `Quiz.AnswerIsFirstPhrase` pins it down for meanings written as a phrase followed by a comma.
- Scores.MyScores: `limit` is a natural number. A negative limit, which the endpoint passes to SQL `LIMIT` and PostgreSQL rejects, is not modelled.
- Countdown.FormatTime: states the shape of the text. The value is stated by `Countdown.FormatTimeReadsBack`.

## Findings

| source | as written | input that shows it | evidently intended | confidence | as-written member | corrected member |
|---|---|---|---|---|---|---|
| backend/app/schemas.py:41-45 | the username pattern is applied with `re.match` and ends in `$`, which also matches before a final line feed | the username `"abc.\n"` passes the pattern and also the no-trailing-dot rule, because its last character is the line feed | the whole name consists of the allowed characters, so no line feed and no trailing dot | high, not executed | Schemas.UsernameNewlineSlipsThrough | Schemas.UsernameValidatorsAgreeWithoutNewline |
| backend/app/routers/vocabulary.py:256-273 | the duplicate check queries the database, but the session is created with `autoflush=False`, so rows added earlier in the same import are invisible to it | a file holding the same new (expression, reading) row twice imports it twice | a row repeated within one file is imported once and reported as a duplicate the second time | medium, not executed | VocabularyImport.SameFileDuplicatesBothImported | VocabularyImport.SameFileDuplicateImportedOnce |
