# Mailu's state machines, codecs and reconcilers, verified

Mailu is a mail server assembled from containers. Most of its own code is glue, but some of it has to
be right on every input and in every run. This project models that code in Dafny and proves what it
keeps. `dafny verify dfyconfig.toml` checks everything.

| files | what they model |
|---|---|
| `LogLines`, `LogPump`, `LogDelivery`, `LogFilter` | the log filter: a line splitter fed in chunks, a bounded queue, and an output thread that writes it out |
| `OAuthGrants`, `OAuthRuns`, `OAuthAnswers`, `OAuthPasswordChange`, `OAuthCleanup`, `OAuthServer` | the OAuth 2.0 grants of mail apps: codes, rotation, replay, forced re-authentication, introspection, garbage collection |
| `ImapUtf7` | the modified UTF-7 encoder of the fetchmail poller |
| `AliasRanking` | address resolution over users and aliases |
| `Calendar`, `Digests` | the period arithmetic and the windows of the quarantine digests |
| `QuarantineStore`, `QuarantineRetention` | the quarantine's two-file records on disk, with a process that may die at any step, and how long they stay |
| `Netstring`, `TabEscape` | Podop's wire formats towards Postfix and Dovecot |
| `ConfMerge` | the n-ary merge of configuration trees |
| `Identities` | the reconciliation of webmail identities with aliases |
| `PasskeySlots` | the padded allow-list of a passkey login |
| `RelayTarget` | reading a relay target and printing Postfix's next hop |
| `Bytes`, `Decimal`, `Options` | shared vocabulary |

Code that updates state in place is a class or a method with loops here, and its `ensures` ties the new
state to a function of the old one (`LogPump.Next`, `OAuthGrants.Step`, `Netstring.Receive`,
`Digests.AfterRun`, `QuarantineStore.Cleaned`, and so on). The lemmas are about those functions and about
runs of them.

## Where the code differs from what one would expect

Each of these is proved: where the expectation holds, and that it fails elsewhere.

- Deleting old grants is unnoticeable exactly when an access token's lifetime is at most the retention
  period plus the idle limit. Otherwise a grant without refresh can be deleted while its access token is
  still good (`OAuthCleanup.CleanupIsInvisibleExactlyWhen`).
- Shifting two moments by a month can swap them, when the end of the target month clamps both to the same
  day and their times of day are in the opposite order (`Calendar.ShiftKeepsOrderExactlyWhen`). Digests
  are still at least a period apart.
- The alias branch "a match in the given case but none in lower case" is no dead code. Some table leads to
  it exactly when the local part is empty, which the second query looks up as NULL, or has a character
  whose lower case is longer than one character, such as U+0130 (`AliasRanking.CanBeLoneExactlyWhen`).
- A code approved before a password change still gives new tokens after it, for as long as codes live and
  no longer: 300 seconds (`OAuthPasswordChange.CodeOutlivesChange`,
  `OAuthPasswordChange.AcceptedAfterChange`).
- A netstring connection on which a frame ends within a chunk never delivers anything again
  (`Netstring.DeliveredExactlyWhenCut`), and a frame longer than the base buffer is delivered by no cut at
  all, although the code has a branch to let the buffer grow (`Netstring.DeliverableExactlyWhenFits`).
- Storing an id again can leave the message of one call beside the metadata of another, and the listing
  shows them as one record. A call with a message is safe from this, whatever it carries and however it
  ends, exactly when there is no metadata of the id on disk, and a call without one exactly when there is
  no message (`QuarantineStore.AnyStoreKeepsPairExactlyWhen`). Quarantined messages get a new id each, so
  they are safe. Greylisted messages, stored under a key made from their message id, are not: a second
  report without the text is enough (`QuarantineStore.StoreTwice`).
- A Dovecot reply without arguments cannot be told from one with a single empty argument
  (`TabEscape.ReplyReadsBack`).
- A relay host called `mx` or `lmtp`, written without brackets and with a port, is read as a prefix
  (`RelayTarget.TargetReadsBack`).
- The modified UTF-7 encoder passes 0x7f through, which RFC 2060, section 5.1.3, would have encoded
  (`ImapUtf7.OutputAlphabet`).

## Model

| member | source | states |
|---|---|---|
| LogLines.LinesSplit | core/base/libs/socrate/socrate/log_filter.py:124-149 | the specification of line splitting concatenates back to the stream and cuts after every newline and nowhere else |
| LogLines.SplitIsUnique | core/base/libs/socrate/socrate/log_filter.py:124-149 | there is no other such cut, so the specification is not an accident of how it is computed |
| LogLines.LinesByNumbers | core/base/libs/socrate/socrate/log_filter.py:124-149 | in bytes: every line but the last ends in 0x0a, and no line has one earlier |
| LogLines.EventsExactly | core/base/libs/socrate/socrate/log_filter.py:116-121 | a line of up to 65536 bytes is one line, a longer one is one drop |
| LogFilter.CaughtUpOpen | core/base/libs/socrate/socrate/log_filter.py:128-144 | a chunk without newline leaves buffer, discard mode and drop count a function of all bytes seen, however they were cut |
| LogFilter.CaughtUpSettled | core/base/libs/socrate/socrate/log_filter.py:128-149 | so does a chunk up to its newline: the buffered line is emitted or counted once, or was already counted when it was discarded |
| LogFilter.CaughtUpEnd | core/base/libs/socrate/socrate/log_filter.py:152-158 | at the end of the stream the unterminated rest completes the events of the whole stream |
| LogFilter.Splitter.Consume | core/base/libs/socrate/socrate/log_filter.py:124-149 | for every way of cutting, the events so far are those the bytes seen settle, and the other pipe's account is untouched |
| LogFilter.Splitter.FlushPartial | core/base/libs/socrate/socrate/log_filter.py:152-158 | afterwards the events are exactly "split at newlines, drop what is too long" of the whole stream |
| LogFilter.Splitter.BufferIsBounded | core/base/libs/socrate/socrate/log_filter.py:125-143 | the buffer never exceeds the line limit, and is empty while discarding |
| LogFilter.Pump.Emit | core/base/libs/socrate/socrate/log_filter.py:28-49 | whatever the output thread does between its queue operations: a line that a pattern matches changes nothing; any other is entered in the account once, and it is queued, with nothing left to report, if the queue has room for it and for the notice due and the descriptor works; the other descriptor is untouched |
| LogFilter.Pump.Follow | core/base/libs/socrate/socrate/log_filter.py:36-49 | with fewer than 64 items in the queue a put succeeds: the line is queued, or a notice is and the count starts again |
| LogFilter.KeptIsFilter | core/base/libs/socrate/socrate/log_filter.py:29-30 | filtering removes the matching lines, and keeps everything else, as often as it was there and in order |
| LogFilter.Forward | core/base/libs/socrate/socrate/log_filter.py:214-242 | for both pipes, any order of reads, any cut into chunks and any behaviour of the output thread, each pipe ends with the events of its own stream |
| LogFilter.Splitter.Ledger | core/base/libs/socrate/socrate/log_filter.py:28-83 | at the end, unfiltered lines of the stream = lines queued + drops reported by notices + drops not yet reported; lines are queued in stream order and written as a prefix |
| LogFilter.Splitter.NothingMissing | core/base/libs/socrate/socrate/log_filter.py:28-49 | if the queue had room at every put and the descriptor did not fail, the lines queued are exactly the unfiltered lines of the stream that fit |
| LogPump.EveryInterleaving | core/base/libs/socrate/socrate/log_filter.py:28-83 | under every interleaving of the two threads with partial writes, interruptions, retries and fatal errors: output is a prefix of what was queued, all of it after an orderly stop of a descriptor that never failed, every line is accounted for once, in order, and the queue keeps its bound |
| LogPump.InvStep | core/base/libs/socrate/socrate/log_filter.py:28-83 | each single step of either thread keeps this |
| LogDelivery.LineIsQueuedExactlyWhen | core/base/libs/socrate/socrate/log_filter.py:46-49 | a line at its put is queued as it is with fewer than 64 items in the queue, and otherwise costs one drop |
| LogDelivery.NoticeIsQueuedExactlyWhen | core/base/libs/socrate/socrate/log_filter.py:35-44 | a notice at its put is queued and the count is 0 again with fewer than 64 items, and otherwise nothing happens; the line is next either way |
| LogDelivery.OfferGoesOn | core/base/libs/socrate/socrate/log_filter.py:31-35 | a line for a disabled descriptor is a drop at once; any other goes on to a notice if there are drops, and to its own put if not |
| LogDelivery.StopIsQueuedExactlyWhen | core/base/libs/socrate/socrate/log_filter.py:270-275 | the sentinel is queued if there is room, and nothing else changes |
| LogDelivery.TakenIsWritten | core/base/libs/socrate/socrate/log_filter.py:55-61 | the writer takes the first item: the sentinel ends it, an item for a disabled descriptor is passed over, the bytes of any other are written |
| LogDelivery.WritesAreExact | core/base/libs/socrate/socrate/log_filter.py:62-83 | a partial write appends exactly the bytes taken and keeps the rest in hand; an interrupted or retried one changes nothing |
| LogDelivery.NoticeIsALine | core/base/libs/socrate/socrate/log_filter.py:36-38 | a notice is one line |
| LogDelivery.NoticesTellTheCount | core/base/libs/socrate/socrate/log_filter.py:36-38 | from which the number of drops can be read |
| LogDelivery.NothingIsLost | core/base/libs/socrate/socrate/log_filter.py:28-83 | in every interleaving in which no line met a full queue and the descriptor never failed, the lines queued and the one in flight are exactly the lines offered |
| LogDelivery.EveryLineIsWritten | core/base/libs/socrate/socrate/log_filter.py:28-83 | so after an orderly end every line offered has been written whole and in order, and what drops there are come from oversized lines |
| LogDelivery.DisabledByFailure | core/base/libs/socrate/socrate/log_filter.py:63-82 | a descriptor is given up only by a failed write to it |
| LogDelivery.SilentAfterFailure | core/base/libs/socrate/socrate/log_filter.py:59-60 | and nothing is written to it after that |
| OAuthServer.Server.CleanupExpiredRecords | core/admin/mailu/oauth2.py:98-118 | deletes exactly the expired codes and the long-expired grants, and counts them |
| OAuthServer.Server.Approve | core/admin/mailu/oauth2.py:351-382 | a code for an enabled user after a cleanup, a refusal that changes nothing for any other, and a failure if the drawn code is taken |
| OAuthServer.Server.IssueTokens | core/admin/mailu/oauth2.py:389-448 | what a first issue and a renewal leave in the grant, and the tokens answered |
| OAuthServer.Server.RedeemCode | core/admin/mailu/oauth2.py:496-533 | one step of the grant machine, with all refusals and the rollback when the drawn grant id is taken |
| OAuthServer.Server.RefreshGrant | core/admin/mailu/oauth2.py:535-627 | one step: rotation, replay, generations ahead of the grant, every kind of expiry, disabled users |
| OAuthServer.Server.RevokeToken | core/admin/mailu/oauth2.py:639-659 | either token of a grant removes the grant |
| OAuthServer.Server.ForceReauthentication | core/admin/mailu/oauth2.py:463-479 | caps the expiry times of one grant and touches no other |
| OAuthServer.Server.ForceUserReauthentication | core/admin/mailu/oauth2.py:482-485 | does so for exactly the grants of one user |
| OAuthServer.Server.IntrospectToken | core/admin/mailu/internal/views/oauth2.py:12-63 | active exactly for the current generation of a live grant of an enabled user whose scope and settings allow the protocol |
| OAuthServer.Server.ExpiredGrants | core/admin/mailu/ui/views/tokens.py:71-85 | the loop flags exactly the user's grants that need re-authentication |
| OAuthAnswers.ApproveExactlyWhen | core/admin/mailu/oauth2.py:351-382 | an approval succeeds exactly for an enabled user and a code that is not in the table, and leaves a code for that user, scope, redirect and challenge that lives 300 seconds |
| OAuthAnswers.CodeWasApproved | core/admin/mailu/oauth2.py:351-382 | in every run, every code in the table stems from an approval before it |
| OAuthAnswers.RedeemedWasApproved | core/admin/mailu/oauth2.py:496-533 | in every run, who gets tokens for a code had it approved less than 300 seconds before, with the same redirect and challenge, by a user who is enabled now; the tokens are for that user and scope |
| OAuthAnswers.ApprovedCodeRedeems | core/admin/mailu/oauth2.py:496-533 | conversely, an approved code that nothing has spent is answered with tokens, given in time with the same redirect and challenge for an enabled user |
| OAuthAnswers.RedeemStep | core/admin/mailu/oauth2.py:496-533 | what a redemption needs, in full, and the tokens it gives |
| OAuthAnswers.RefusedRedemption | core/admin/mailu/oauth2.py:514-533 | a refused redemption changes nothing, but for the code of a disabled user, which is spent |
| OAuthAnswers.RefreshExactlyWhen | core/admin/mailu/oauth2.py:535-627 | a refresh succeeds exactly with the current token of a grant that is within its absolute and its idle limit and has an enabled user |
| OAuthAnswers.RefreshGives | core/admin/mailu/oauth2.py:389-448 | it gives the next generation of both tokens with the lifetime promised, and changes nothing of the grant but generation, activity time and access expiry |
| OAuthAnswers.RefusedRefresh | core/admin/mailu/oauth2.py:535-627 | a refused refresh removes the grant for an older generation, and for a current one out of its limits or of a disabled user; anything else changes nothing |
| OAuthAnswers.ActiveExactlyWhen | core/admin/mailu/internal/views/oauth2.py:12-63 | a token is active exactly if it is the current access token of a grant, has not expired, and its enabled user and its scope allow the protocol, each protocol spelled out; the answer is that user, scope and expiry |
| OAuthAnswers.TokenLastsAsTold | core/admin/mailu/oauth2.py:389-448 | a token handed out is active for exactly the lifetime told with it |
| OAuthAnswers.FlaggedExactlyWhen | core/admin/mailu/ui/views/tokens.py:71-85 | the list flags a grant without refresh when its access token has expired, any other when it is past its end or idle time |
| OAuthAnswers.WithdrawalIsFinal | core/admin/mailu/oauth2.py:639-659 | in every run, after a revocation, a removal on the page or the deletion of the account no token of the grant is accepted |
| OAuthAnswers.OthersAreSpared | core/admin/mailu/oauth2.py:463-485 | withdrawal and forced re-authentication leave all other grants as they are |
| OAuthAnswers.ForcedKeepsItsRow | core/admin/mailu/oauth2.py:463-479 | a forced grant keeps its row, user, scope and generation, and from then on neither of its tokens works |
| OAuthAnswers.CleanupLeaves | core/admin/mailu/oauth2.py:98-118 | a cleanup leaves exactly the codes that have not expired and the grants until 2592000 seconds after their end and after their idle time |
| OAuthRuns.RefreshSucceedsOnce | core/admin/mailu/oauth2.py:535-627 | in every run with fresh draws a refresh token succeeds at most once, as section 4.14.2 of RFC 9700 asks |
| OAuthRuns.CodeRedeemsOnce | core/admin/mailu/oauth2.py:496-533 | in every run with fresh draws a code is redeemed at most once, as section 4.1.2 of RFC 6749 asks |
| OAuthRuns.RepeatedDrawRevives | core/admin/mailu/oauth2.py:394-403 | the run that makes fresh draws a premise: should the random source repeat the id of a revoked grant, the revoked tokens are accepted again |
| OAuthRuns.AcceptedGenerationsGrow | core/admin/mailu/internal/views/oauth2.py:45-50 | once an access token was accepted no older generation of its grant ever is; at one time, only one is |
| OAuthRuns.ReplayRevokesTheFamily | core/admin/mailu/oauth2.py:554-574 | after a stale refresh token is presented, every token of its grant is refused in every later step |
| OAuthRuns.PasswordChangeIsFinal | core/admin/mailu/models.py:799-808 | after a password change every token issued to the user before is refused at every later time, with or without a refresh expiry |
| OAuthPasswordChange.AcceptedIsRedeemedLater | core/admin/mailu/oauth2.py:463-533 | a token of the user accepted after the change belongs to a grant redeemed after the change |
| OAuthPasswordChange.AcceptedAfterChange | core/admin/mailu/oauth2.py:463-533 | and that redemption used a code approved after the change, or came less than 300 seconds after it |
| OAuthPasswordChange.CodeOutlivesChange | core/admin/mailu/oauth2.py:482-533 | the bound is tight: at each time short of 300 seconds after the change, a code approved just before it can be redeemed |
| OAuthRuns.InvStep | core/admin/mailu/oauth2.py:389-428 | every request keeps access expiry <= refresh expiry <= issue + refresh TTL and access expiry <= last refresh + idle limit |
| OAuthRuns.InvAlong | core/admin/mailu/oauth2.py:389-428 | hence these bounds hold throughout every run with a non-decreasing clock |
| OAuthRuns.RefreshChainsEnd | core/admin/mailu/oauth2.py:591-627 | no chain of refreshes yields a token accepted past issue + refresh TTL or past the idle limit |
| OAuthRuns.RenewalsAreClose | core/admin/mailu/oauth2.py:591-627 | successive renewals of a grant are less than the idle limit apart |
| OAuthRuns.ListAgreesWithServer | core/admin/mailu/ui/views/tokens.py:71-85 | for an enabled user, the list flags a grant exactly when neither its current refresh token nor its current access token would be accepted |
| OAuthCleanup.ExpirableIsDead | core/admin/mailu/oauth2.py:98-118 | a grant that cleanup may delete has no token left that works |
| OAuthCleanup.ShadowStep | core/admin/mailu/oauth2.py:488-659 | a server that has deleted dead records answers every client request like one that has not, and stays that way |
| OAuthCleanup.CleanupIsInvisible | core/admin/mailu/oauth2.py:98-118 | cleanup steps inserted anywhere in any run change no answer a client gets |
| OAuthCleanup.CleanupShows | core/admin/mailu/oauth2.py:98-118 | with longer-lived access tokens, a run in which cleanup does change an answer |
| OAuthCleanup.CleanupIsInvisibleExactlyWhen | core/admin/mailu/oauth2.py:98-118 | cleanup is unnoticeable in all runs if and only if access TTL <= 30 days + idle limit |
| ImapUtf7.ImapUtf7Encode | optional/fetchmail/fetchmail.py:35-47 | the loop's output decodes, by an RFC decoder with bounds of its own that refuses needless and adjacent shifted runs, to the input; it stays within 0x20..0x7f, is the input itself for a name of such characters without '&', and its literal characters are exactly those of the input in 0x20..0x7f |
| ImapUtf7.RoundTrip | optional/fetchmail/fetchmail.py:35-47 | for every string of Unicode scalar values, decoding gives back what was encoded |
| ImapUtf7.ShiftRoundTrip | optional/fetchmail/fetchmail.py:42 | UTF-16, base64, stripped padding and the comma alphabet undo each other for every run of characters |
| ImapUtf7.StripsPadding | optional/fetchmail/fetchmail.py:42 | stripping newline and '=' leaves exactly the base64 digits, for every length class |
| ImapUtf7.Utf16RoundTrip | optional/fetchmail/fetchmail.py:42 | big-endian UTF-16 with surrogate pairs decodes back |
| ImapUtf7.SentinelFlushes | optional/fetchmail/fetchmail.py:39-47 | the appended 'X' flushes the last run and is the one character cut off |
| ImapUtf7.OutputAlphabet | optional/fetchmail/fetchmail.py:40-44 | the output lies in 0x20..0x7f by the numbers, and contains 0x7f if and only if the name does |
| ImapUtf7.LiteralsStandForThemselves | optional/fetchmail/fetchmail.py:39-46 | a name of characters in 0x20..0x7f other than '&' is left as it is |
| ImapUtf7.LiteralsArePassed | optional/fetchmail/fetchmail.py:39-46 | with the shifted runs deleted and "&-" read as '&', the output has exactly the characters of the name in 0x20..0x7f, in order |
| ImapUtf7.AlphabetIs | optional/fetchmail/fetchmail.py:42 | the 64 digits are A to Z, a to z, 0 to 9, '+' and ',' |
| ImapUtf7.SextetsAreBits | optional/fetchmail/fetchmail.py:42 | the digits are the bits of the bytes, six at a time, the most significant first, with zeros at the end |
| ImapUtf7.UnitsAre | optional/fetchmail/fetchmail.py:42 | the bytes of a character are its UTF-16 code unit or its surrogate pair, the high byte first |
| AliasRanking.LikeOne | core/admin/mailu/models.py:946-948 | in a LIKE pattern '%' takes anything, '_' one character, and any other character itself |
| AliasRanking.LikeConcat | core/admin/mailu/models.py:946-948 | and patterns one after the other match texts one after the other |
| AliasRanking.LikeLowered | core/admin/mailu/models.py:961-965 | a LIKE match survives lowering both sides if each character of the text lowers to one character |
| AliasRanking.MatchesSurviveExactlyWhen | core/admin/mailu/models.py:961-965 | all matches of a text survive if and only if that is so; a row of underscores is lost otherwise |
| AliasRanking.LoneSameCaseMatch | core/admin/mailu/models.py:974-975 | this branch is taken only for an empty local part, or one with a character whose lower case is longer; for the empty one whenever there is a match |
| AliasRanking.CanBeLoneExactlyWhen | core/admin/mailu/models.py:974-975 | and for each of these local parts some table leads to it |
| AliasRanking.ResolveIsRanking | core/admin/mailu/models.py:922-980 | an alias is a possible result of the two queries and their combination if and only if one ranking allows it: exact, then exact in any case, then a longest wildcard in any case, then a longest wildcard as it stands |
| AliasRanking.ResultIsEnabled | core/admin/mailu/models.py:926-968 | a result belongs to the domain, is not disabled, and its owner, if it has one, exists and is enabled |
| AliasRanking.EnabledAliasIsFound | core/admin/mailu/models.py:926-980 | every such alias that matches is found, or one that takes precedence over it |
| AliasRanking.StrippedIs | core/admin/mailu/models.py:581-587 | the local part is cut before its first delimiter, and only if it has one |
| AliasRanking.DetailGoesBeforeTheDomain | core/admin/mailu/models.py:566-572 | the detail goes before the last '@' of a destination; one without '@' stays as it is |
| AliasRanking.DetailComesOffAgain | core/admin/mailu/models.py:566-587 | a destination with the detail re-attached is looked up as the original one plus that detail |
| AliasRanking.DestinationFollowsPrecedence | core/admin/mailu/models.py:574-622 | every result follows user, stripped user, explicit alias, stripped alias (detail back on every destination of an explicit one), wildcard alias; a user's destination is the asked address without forwarding, and with it the forward list, followed by the asked address if and only if copies are kept or the setting is to be ignored |
| AliasRanking.UserDestination | core/admin/mailu/models.py:589-603 | for a user's own address, with or without detail, these settings alone decide |
| AliasRanking.PrecedenceIsPossible | core/admin/mailu/models.py:574-622 | and every destination that order allows is a possible result |
| Calendar.ShiftIsValid | core/admin/mailu/quarantine.py:169-180 | a shifted date is a date of the calendar |
| Calendar.ShiftMovesOn | core/admin/mailu/quarantine.py:169-180 | shifting forward moves strictly forward, back strictly back |
| Calendar.ShiftKeepsOrderExactlyWhen | core/admin/mailu/quarantine.py:169-180 | a forward shift keeps the order of two moments if and only if it does not clamp them onto the same day with opposite times of day |
| Calendar.ShiftCanSwap | core/admin/mailu/quarantine.py:174-179 | two moments of January 2025 that a month swaps |
| Calendar.ShiftBackUndoes | core/admin/mailu/quarantine.py:169-180 | back and forth gives the same moment if and only if no day was lost to a shorter month |
| Calendar.DaysAndWeeks | core/admin/mailu/quarantine.py:170-173 | by the numbers of the days, a day is one day and a week is seven, at the same time of day |
| Calendar.MonthsOn | core/admin/mailu/quarantine.py:174-179 | a month leads so many months on, to the same day, or to the last day there if that month has no such day |
| Calendar.MonthLengths | core/admin/mailu/quarantine.py:178 | the months have their lengths in the Gregorian calendar, which adds a day in every fourth year, but not in every hundredth, but in every four hundredth |
| Digests.SelectIsExact | core/admin/mailu/quarantine.py:350-354 | a digest holds exactly the records addressed to the mailbox in the half-open window |
| Digests.RenderingKeepsTheSelection | core/admin/mailu/quarantine.py:196-213 | the second filter, at rendering, removes none of them |
| Digests.SummarizedIsExact | core/admin/mailu/quarantine.py:203-212 | by itself the second filter takes the records of the mailbox from both ends of the window on |
| Digests.RunMailsExactly | core/admin/mailu/quarantine.py:336-371 | the digests a run mails are, in order, exactly those of the users who were due before it, have records in their window and are reached, up to the first exception; and it counts them |
| Digests.DueExactlyWhen | core/admin/mailu/quarantine.py:338-347 | a user is due exactly without a readable state, or when the state is a period old |
| Digests.DigestExactly | core/admin/mailu/quarantine.py:348-354 | a digest runs from the state, or one period back, to now, and holds exactly the records of the mailbox after the one and up to the other |
| Digests.StateAfterTurns | core/admin/mailu/quarantine.py:355-363 | after the loop the dictionary is at now for exactly the users who were due and had nothing to mail or were reached, and as before for all others |
| Digests.RowAfterTurns | core/admin/mailu/quarantine.py:364-371 | the stored row is as before until a digest goes out, then the dictionary at the last that did |
| Digests.RowAfterRun | core/admin/mailu/quarantine.py:372-377 | a run that mails nothing stores its dictionary, unless there is nothing to store |
| Digests.TurnIsSteady | core/admin/mailu/quarantine.py:346-371 | a user's turn, with or without a digest, keeps the windows behind the stored and the working state abutting, and each digest the content of one window |
| Digests.Job.SendDueSummaries | core/admin/mailu/quarantine.py:326-378 | the stored state, the mail added to the outbox, the count and the windows examined, for every mix of outcomes |
| Digests.Job.NoRecordTwice | core/admin/mailu/quarantine.py:326-378 | over all runs no record is in two digests mailed to one mailbox |
| Digests.Job.AtLeastAPeriodApart | core/admin/mailu/quarantine.py:346-347 | while the periodicity stays the same, two digests mailed to one mailbox are at least a period apart |
| Digests.Job.NothingPassedOver | core/admin/mailu/quarantine.py:348-354 | every moment between two windows of a mailbox lies in an examined window, and a matching record its run saw has been mailed |
| QuarantineStore.Repository.Store | core/admin/mailu/quarantine_repository.py:31-76 | refusals change nothing; otherwise the number of file operations that work decides whether the id's two files are as before, the message only is new, or both are as given; all other records stay paired, and this one, too, where nothing was there to be mixed with |
| QuarantineStore.Repository.Delete | core/admin/mailu/quarantine_repository.py:180-195 | removes exactly the readable records of the asked kind, message first, or raises with nothing or the message alone gone; no record gets mixed |
| QuarantineStore.Repository.Get | core/admin/mailu/quarantine_repository.py:152-177 | returns a record exactly if its id has the form of the kind, its metadata is readable and of that kind, its message exists and it is at most so many days of 86400 seconds old; if paired, with bytes and metadata of one store call; deletes it exactly if only the last two fail |
| QuarantineStore.Repository.Entries | core/admin/mailu/quarantine_repository.py:126-149 | on any disk, the loop lists exactly the records that qualify: unreadable metadata and unknown kinds are skipped, a missing kind is quarantine |
| QuarantineStore.ListedIsOneCall | core/admin/mailu/quarantine_repository.py:126-149 | a listed record that is paired has the message and the metadata of one store call |
| QuarantineStore.OnceIsPaired | core/admin/mailu/quarantine_repository.py:126-149 | whatever stems from one store call only is paired, after any history of deaths |
| QuarantineStore.StoreKeepsPairExactlyWhen | core/admin/mailu/quarantine_repository.py:65-67 | a store call leaves its record paired in every outcome if and only if some call has had both its message and the metadata on disk, or, for a call without a message, both its metadata and the message on disk |
| QuarantineStore.AnyStoreKeepsPairExactlyWhen | core/admin/mailu/quarantine_repository.py:65-67 | every call with a message does so if and only if no metadata of the id is on disk, and every call without one if and only if no message is |
| QuarantineStore.EveryStageHappens | core/admin/mailu/quarantine_repository.py:50-67 | each of the outcomes is that of some process, so none is ruled out |
| QuarantineStore.StoreTwice | core/admin/mailu/greylist.py:40-67 | two undisturbed calls for a message key, the second without the text, leave the old text with the new metadata |
| QuarantineStore.SecondStoreCanMix | core/admin/mailu/quarantine_repository.py:65-67 | for any kind of id, a second call that dies between its renames leaves its message beside the older metadata, and this is listed |
| QuarantineStore.Repository.CleanupExpired | core/admin/mailu/quarantine_repository.py:98-123 | on any disk, a completed cleanup leaves exactly the specified one, whatever failed and was retried on the way; a broken one has only removed files; an undisturbed one completes and counts the readable records and orphans it removed |
| QuarantineStore.CleanupOfUnreadable | core/admin/mailu/quarantine_repository.py:113-118 | left in peace, it removes an unreadable record and its message, and does not count them |
| QuarantineStore.CleanedHasNoLeftovers | core/admin/mailu/quarantine_repository.py:98-123 | no orphaned message remains, and no metadata that is invalid or, by the numbers, too old |
| QuarantineStore.CleaningIsIdempotent | core/admin/mailu/quarantine_repository.py:98-123 | a second cleanup at the same time changes nothing |
| QuarantineStore.ReplaceConsistent | core/admin/mailu/quarantine_repository.py:65-67 | an atomic rename keeps every other record whole |
| QuarantineRetention.CleanupKeepsExactly | core/admin/mailu/quarantine_repository.py:86-123 | a completed cleanup keeps exactly the readable records of the two kinds that are at most the days set for their kind old, of 86400 seconds each, counted from the file's time or the time received, with their messages, unchanged; a kind set to no days keeps nothing |
| QuarantineRetention.KeptEarlier | core/admin/mailu/quarantine_repository.py:86-123 | what is kept at a time would be kept at every earlier one |
| QuarantineRetention.StoreAndClean | core/admin/mailu/quarantine_repository.py:31-123 | a quarantined message stored at a time is there, unchanged, after a completed cleanup exactly if messages are kept at all and the days have not passed, and otherwise gone |
| QuarantineRetention.StoreAndCleanGreylisted | core/admin/mailu/quarantine_repository.py:31-123 | so is a greylisted one, counted from the time in its metadata, or from the call if that has none |
| QuarantineRetention.StoreAndGet | core/admin/mailu/quarantine_repository.py:31-177 | a quarantined message is returned as stored for exactly those days, and deleted after them |
| QuarantineRetention.StoreAndGetGreylisted | core/admin/mailu/quarantine_repository.py:31-177 | so is a greylisted one, counted as above |
| QuarantineRetention.ListedExactlyWhen | core/admin/mailu/quarantine_repository.py:126-149 | a record is listed exactly if it is readable and of the kind wanted, a quarantined one only with its message, and with its id, kind and size |
| QuarantineRetention.DeletableExactlyWhen | core/admin/mailu/quarantine_repository.py:180-192 | a deletion takes exactly the readable records of the kind asked for, or of any, metadata without a kind being that of the quarantine |
| QuarantineRetention.StoredRecordIs | core/admin/mailu/quarantine_repository.py:44-46 | storing writes the kind asked for and the time only where it is missing |
| Netstring.Protocol.DataReceived | core/base/libs/podop/podop/postfix.py:30-50 | the buffer, length, separator and index after a call, and the payload or error it led to |
| Netstring.Protocol.SendString | core/base/libs/podop/podop/postfix.py:57-64 | four writes make one frame |
| Netstring.SentFits | core/base/libs/podop/podop/postfix.py:57-64 | the length in front of a sent payload is its length, read back from decimal |
| Netstring.OneFrame | core/base/libs/podop/podop/postfix.py:30-50 | however a frame is cut, the payload is delivered once, not before the last chunk, and the connection is as new |
| Netstring.Conversation | core/base/libs/podop/podop/postfix.py:24-64 | any frames whose ends fall on chunk ends decode to the sequence of their payloads, without error |
| Netstring.DeliveredExactlyWhenCut | core/base/libs/podop/podop/postfix.py:30-50 | a frame with any stream behind it is delivered if and only if it fits the base buffer and some chunk ends where the frame ends; otherwise nothing is |
| Netstring.DeliverableExactlyWhenFits | core/base/libs/podop/podop/postfix.py:31-36 | some cut delivers a frame if and only if it has at most 1024 bytes, and then every cut does |
| Netstring.RaisesExactlyWhen | core/base/libs/podop/podop/postfix.py:30-36 | a call raises exactly when old and new bytes are more than 1024, with its own error above 65535, and keeps nothing of the new ones |
| Netstring.SentIs | core/base/libs/podop/podop/postfix.py:57-64 | a payload is sent as its length in decimal, 0x3a, itself and 0x2c |
| Decimal.Positional | core/base/libs/podop/podop/postfix.py:43-44 | numerals are read as decimal, the most significant digit first |
| Decimal.PrintsNoZeros | core/base/libs/podop/podop/postfix.py:61 | and are printed with digits only and without leading zeros |
| Netstring.OvershotIsDeaf | core/base/libs/podop/podop/postfix.py:46-50 | past the end of a frame, nothing is ever delivered again |
| Netstring.FramesAreSelfDelimiting | core/base/libs/podop/podop/postfix.py:57-64 | a stream of frames can be read in one way only, colons and digits in payloads notwithstanding |
| TabEscape.TabEscapeIsMap | core/base/libs/podop/podop/dovecot.py:189-197 | the five passes amount to one map per byte |
| TabEscape.EscapesAre | core/base/libs/podop/podop/dovecot.py:189-197 | each of the five bytes becomes 0x01 and its own letter, all others stay |
| TabEscape.EscapesApart | core/base/libs/podop/podop/dovecot.py:189-197 | and the parts of a text are escaped apart |
| TabEscape.ReplacePairIsMap | core/base/libs/podop/podop/dovecot.py:200-208 | an unescaping pass turns back its own pairs and neither makes nor breaks another |
| TabEscape.RoundTrip | core/base/libs/podop/podop/dovecot.py:189-208 | unescaping undoes escaping for all byte strings |
| TabEscape.EscapedIsOneField | core/base/libs/podop/podop/dovecot.py:189-197 | escaped text has no NUL, tab, newline or carriage return |
| TabEscape.ReplyReadsBack | core/base/libs/podop/podop/dovecot.py:166-171 | a reply reads back as its command and arguments if and only if it has arguments |
| TabEscape.ReplyIs | core/base/libs/podop/podop/dovecot.py:166-171 | a reply is the command, the escaped arguments with tabs between them, and a newline |
| TabEscape.RepliesAreTheLines | core/base/libs/podop/podop/dovecot.py:166-171 | the replies of a connection are exactly its lines |
| ConfMerge.SelectDecreases | core/base/libs/socrate/socrate/conf.py:35-37 | the recursion goes down in the depth of the trees |
| ConfMerge.MergeNested | core/base/libs/socrate/socrate/conf.py:25-43 | merging a run of the arguments first gives the same value, and raises exactly when the one merge raises |
| ConfMerge.BracketsDoNotMatter | core/base/libs/socrate/socrate/conf.py:25-43 | so does every bracketing into nested merges |
| ConfMerge.KeysAreUnited | core/base/libs/socrate/socrate/conf.py:34-38 | a merge has exactly the keys of its arguments, each merged by itself, and fails if one of them fails |
| ConfMerge.RaisingKey | core/base/libs/socrate/socrate/conf.py:34-38 | and only then |
| ConfMerge.MergeOfLists | core/base/libs/socrate/socrate/conf.py:39-40 | lists concatenate in argument order |
| ConfMerge.MergeSucceedsExactlyWhen | core/base/libs/socrate/socrate/conf.py:25-43 | a merge of several succeeds exactly for lists, and for dictionaries whose values can be merged key by key |
| ConfMerge.MixedOrLeaves | core/base/libs/socrate/socrate/conf.py:29-43 | so two leaves raise, equal or not, as do values of different types |
| ConfMerge.MergeOfTwoLists | core/base/libs/socrate/socrate/conf.py:39-40 | of two lists the second follows the first |
| ConfMerge.MergeOfTwoDicts | core/base/libs/socrate/socrate/conf.py:34-38 | of two dictionaries a key of one keeps its value, a key of both has the first's merged with the second's |
| Identities.Account.SyncIdentities | webmails/roundcube/login/mailu.php:86-170 | which identities stay, which are added and what is recorded as managed, the loops in any order and addresses shared or not; an incomplete list changes nothing, and an identity that is not managed stays |
| Identities.Account.DropObsolete | webmails/roundcube/login/mailu.php:119-135 | deletes exactly the indexed identities of managed addresses without alias that are not default and can be deleted, and keeps the other addresses managed |
| Identities.Account.InsertMissing | webmails/roundcube/login/mailu.php:137-165 | inserts an identity for exactly the aliases without one that the hook and the store accept |
| Identities.SyncIsSafe | webmails/roundcube/login/mailu.php:119-165 | no identity is deleted that is not managed, is an alias or is the default; managed addresses exist |
| Identities.HeaderEntriesThatCount | webmails/roundcube/login/mailu.php:93-99 | an entry of the header counts exactly if it has an '@' |
| Identities.AfterSync | webmails/roundcube/login/mailu.php:117-169 | for each address, whether it has an identity and whether it is managed after a sync |
| Identities.FailedDeleteIsRetried | webmails/roundcube/login/mailu.php:131-133 | a failed deletion stays managed, and succeeds with the next sync that can delete |
| Identities.SyncConverges | webmails/roundcube/login/mailu.php:86-170 | when all goes well the identities become the old ones minus obsolete managed ones plus all aliases, and a second sync changes nothing |
| Identities.OwnIdentitiesSurvive | webmails/roundcube/login/mailu.php:139-142 | over any sequence of syncs and of the user's own additions and deletions, an identity the user created is never claimed and never deleted, provided no hook turns another alias into its address |
| Identities.DeletedWereInserted | webmails/roundcube/login/mailu.php:117-169 | starting without a record, whatever a sync deletes was inserted by an earlier sync |
| PasskeySlots.LoginCredentialIds | core/admin/mailu/sso/views/passkeys.py:27-51 | distinct ids, the larger of ten and the number of credentials, all of these among them and otherwise only fillers of the slots tried, the first that fit, in hash order |
| PasskeySlots.FillSlots | core/admin/mailu/sso/views/passkeys.py:36-43 | the loop ends after at most ten slots, at the first at which the list is full |
| PasskeySlots.SlotsAreFillersOrHits | core/admin/mailu/sso/views/passkeys.py:37-43 | every slot tried yields a new filler or hits another genuine id |
| PasskeySlots.FewSlots | core/admin/mailu/sso/views/passkeys.py:36 | by the pigeonhole principle a slot is tried only below the tenth |
| PasskeySlots.ListIsCanonical | core/admin/mailu/sso/views/passkeys.py:46-51 | the list depends on the set of genuine ids alone, not on their order |
| RelayTarget.PostfixTransport | core/admin/mailu/internal/views/postfix.py:68-124 | the branches answer the printed next hop of the target's destination, or 400 |
| RelayTarget.TargetReadsBack | core/admin/mailu/internal/views/postfix.py:72-97 | a target in the input syntax is read as meant if and only if its host does not look like a prefix |
| RelayTarget.HostNamedMx | core/admin/mailu/internal/views/postfix.py:72-77 | the target `mx:25` is read as the MX of a host called 25, not as port 25 of a host called mx |
| RelayTarget.ReadWasWritten | core/admin/mailu/internal/views/postfix.py:72-97 | conversely everything accepted is such a target, so exactly the rest is refused |
| RelayTarget.WrittenIs | core/admin/mailu/internal/views/postfix.py:68-97 | the input syntax the two refer to, case by case |
| RelayTarget.HostedTargetMeans | core/admin/mailu/internal/views/postfix.py:91-116 | a target with a host means that host, by LMTP or MX as its prefix says, and the port given; it is refused exactly for a host that cannot be encoded or a port that is no number |
| RelayTarget.HopReadsBack | core/admin/mailu/internal/views/postfix.py:117-124 | a printed next hop reads back as transport, host, MX or not and port |
| RelayTarget.HopsDiffer | core/admin/mailu/internal/views/postfix.py:117-124 | no two next hops are printed alike |
| RelayTarget.LineIs | core/admin/mailu/internal/views/postfix.py:117-124 | the output, case by case |
| RelayTarget.ShownIs | core/admin/mailu/internal/views/postfix.py:122-123 | with the port in decimal after a colon |
| RelayTarget.TargetReachesHop | core/admin/mailu/internal/views/postfix.py:62-124 | from the target as written to Postfix's reading of the answer, the destination is the one meant |
| RelayTarget.EmptyHostMeansRelayDomain | core/admin/mailu/internal/views/postfix.py:91-98 | without a host, SMTP goes to the MX of the relayed domain, at the port given, and LMTP is refused |
| RelayTarget.BracketsExactlyWhen | core/admin/mailu/internal/views/postfix.py:119-121 | brackets stand around IPv6 addresses and SMTP hosts without MX lookup, and nothing else |

## Left out

- LogFilter.Forward: filter patterns are one predicate on lines; the selector, signals, process groups and timeouts are not modelled, and a pipe is named by the descriptor it feeds.
- LogPump.EveryInterleaving: safety only; whether a blocked sink ever accepts bytes again is not claimed, and what stays queued when the daemon thread is abandoned counts as not written.
- OAuthServer.Server.Approve: the consent page, redirect and PKCE checks of the request are not part of it, and a code stands for its hash.
- OAuthRuns.RefreshSucceedsOnce: like the other results on whole runs, it takes for granted that the random source never repeats a code or a grant id (`FreshDraws`); the source relies on this, too.
- OAuthServer.Server.RedeemCode: the challenge computed from the verifier is an input; SHA-256 and the verifier's alphabet are not modelled.
- OAuthCleanup.CleanupIsInvisible: compares answers to mail clients and the mail server; the token list does show which rows were deleted.
- Mail tokens are authenticated triples of kind, grant id and generation; the HMAC, the token text and the client id are not modelled. Each request is one atomic step, as the row locks make it. Lifetimes do not change within a run.
- ImapUtf7.ImapUtf7Encode: strings are sequences of Unicode scalar values; lone surrogates, for which the encoder raises, cannot be written.
- AliasRanking.ResolveIsRanking: lowering works character by character, the same in database and program, and keeps '%' and '_' apart from the rest; the context-dependent lower case of a final sigma, escapes in LIKE patterns and case rules of particular databases are not modelled, and among rows that tie any may come first.
- AliasRanking.DestinationFollowsPrecedence: a user's forward destination is a value; that the source appends to the stored list in place is not modelled.
- Calendar.ShiftIsValid: years are not bounded, so the overflow errors of the source's dates are not modelled.
- Digests.Job.SendDueSummaries: a crash between sending and committing, rendering, SMTP and the order of records within a digest are not modelled; time stamps are values, not ISO text, and mailbox keys are in lower case.
- QuarantineStore.Repository.Store: the process may die or be refused at any file operation, but the loss of unsynced data is not modelled.
- QuarantineStore.Repository.CleanupExpired: does not run concurrently with a store; temporary files left by a dead process are invisible to it and stay, as in the source. An error while reading a metadata file appears as unreadable content: the cleanup then removes the record, even a live one, as the source does.
- QuarantineStore.Repository.Entries: the final sorting by time is not modelled.
- Netstring.Conversation: an exception closes the connection, as the event loop does. Pipelined frames that share a chunk are covered by `Netstring.DeliveredExactlyWhenCut` only.
- TabEscape.ReplyReadsBack: the request side of the dictionary protocol, with its transactions, is not modelled.
- ConfMerge.MergeNested: the order of dictionary keys is not modelled, and all exceptions are one error, a merge of nothing included.
- Identities.Account.SyncIdentities: addresses are already normalised, the loops run over sets in any order, and fields of an identity other than address and default flag are left out.
- Identities.SyncConverges: like the other results on sets of addresses, it is for accounts in which no two identities share an address.
- PasskeySlots.LoginCredentialIds: the keyed hash is any function injective on slot numbers; the first sort, which `PasskeySlots.ListIsCanonical` shows to be irrelevant when the ordering hash is injective too, is left out.
- RelayTarget.PostfixTransport: lower case, the IDNA encoder and the integer parser are parameters (an encoded name is not empty and has no colon or bracket); the 404 answers before the relay is found are left out. That the stored relay name has no colon is a premise of the reading-back lemmas only.
- Web pages, forms, sessions, certificates, container start scripts, database migrations, DKIM flags, the login-action queue, comma-separated lists and the webmail's user interface are not modelled.
