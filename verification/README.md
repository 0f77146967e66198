# Verified models of the forge's core

This project models the parts of the forge whose correctness is a matter of
arithmetic, of parsing bytes, or of what happens over a whole run, and proves
what they promise. Each module stands for one component.

**Texts and bytes.** `Calendar` is the closed-form conversion of Unix seconds to
a UTC date, proved equal to counting days one at a time with the leap rule of
appendix C and the month lengths of section 5.7 of RFC 3339, in signed 64-bit
arithmetic that never overflows. `PktLine`, `ReceivePack` and `ReceivePackPrint`
are git's packet lines and the two independent readers of a push's command
section: the parser of a whole body and the resumable scanner of a stream.
`ReceivePackGrammar` says exactly which bodies the parser accepts.
`Base64` is the codec of sections 3.2 and 4 of RFC 4648 with its 32-bit
accumulators. `Utf8` holds the byte type and validity of UTF-8.

**Refs and reviews.** `CommitGraph`, `RefService` and `RefInterleaving` model ref
updates and server-side merges over objects that are only ever added, as methods and
as steps that interleave at every question put to git. Ids are whole object ids or
names that git reads anew each time; git may not start, and a git that exits with an
error is taken for a "no", as the service takes it. `RefRaces` holds the runs that
show why `RefInterleaving` asks what it asks of the writers of main. `Reviews`,
`CodeOwners` and `MergeGate` model the fold over the review log and the evaluator of
merge blockers, `ReviewLog` the writing of that log and what is therefore true of
every log the service wrote.

**Accounts.** `Accounts` and `AccountRuns` model passwords, sessions and personal
access tokens, with the two locked sections of a minting or a password change
kept apart. A change writes without looking again at the password it verified;
`PasswordRuns` says when it still replaces that one. `Invitations` and
`InvitationRuns` model invitations and activation.

**Records and admission.** `Deployments` and `DeploymentRuns` model the deployment
history against two plain logs. `PackRpcGate` is the counting semaphore on a
mutex and a condition variable, `PackRpcAdmission` what one admitted call does
with its slot and its record, `PackRpcLedger` the records of all calls over runs of
the gate. `LfsStore` is one put into the object store with every failure of the file
system, `LfsPublish` any number of puts in any number of processes with crashes and
power loss, `LfsDurability` what survives them. A sync of a directory is taken to
bring the entries of that directory to the disk and no others.

**Transformations.** `Restore` and `RestoreTheorems` model the restore planner,
`Rekey` and `RekeyTheorems` the repair of rules stored under percent-encoded
branch names.

Objects that the source updates in place are classes; a method's contract ties
the new value of the object to a function of the old one, or to a log it has to
agree with. Runs are sequences of states or of actions over those same
functions, and the theorems quantify over every run. Git, the clock, random
values, hashing and storage appear as parameters: answers, times, fresh values
and flags saying whether a write was stored.

Where the source and its comments differ, the model follows the source:

- `encode` (crates/jeryu-gitd/src/pktline.rs:20) frames any payload, but four
  hexadecimal digits hold lengths up to 65535 only. `PktLine.PrintThenDecode`
  says exactly which packets come back.
- `chrono_like_iso` (crates/jeryu-tui/src/tuiwright.rs:119-122) is described as
  total; it answers nothing for seconds before the epoch.
- The scanner of the command section skips the packets `0001` and `0002` and insists on
  a flush; the parser refuses the former and forgives a missing flush at the end of
  the body. The two agree on acceptance as `ReceivePack.StreamedCheckRefinesBuffered` states.
- A failing password reset, password change, forced change or status change has
  already been written when the epoch is at its last value
  (crates/jeryu-core/src/engine/auth.rs:135-137, 175-177, 199-202 and 774-775).
  `FailedResetIsHarmlessExactlyWhen` and its three siblings in `Accounts` say exactly
  when each leaves the state alone.
- Merges are called sanctioned advances that are never force updates
  (crates/jeryu-gitd/src/refs.rs:135-140, crates/jeryu-gitd/src/protection.rs:50-53).
  Any move of a tag counts as one (crates/jeryu-gitd/src/refs.rs:372-374), and so does a
  move of a branch when git exits with an error at the ancestry question
  (crates/jeryu-gitd/src/object_fsck.rs:105-111). `RefInterleaving.MergeIsDeniedExactlyWhen`
  says which merges are denied, `RefRaces.FastForwardOfMainDenied` gives one of main.
- Policy and write are said to target the same direct ref, never an alias
  (crates/jeryu-gitd/src/refs.rs:101-102). When git exits with an error at the question
  whether a name is a symbolic ref, the alias is judged and the ref behind it written:
  `RefRaces.AliasTakenAsDirect`.
- A concurrent advance is said to make a merge fail (crates/jeryu-gitd/src/refs.rs:185-186).
  That takes a base given as a whole object id, since a name is read anew at the write:
  `RefRaces.MergeBaseByName`.
- The sync of a directory is to make a renamed object survive a crash
  (crates/jeryu-gitd/src/lfs.rs:526). A put that finds its object already there returns
  without one, and the directories above are never synced; `LfsDurability` says exactly
  which objects survive.

## Model

| member | source | states |
|---|---|---|
| Calendar.CivilIsDayCount | crates/jeryu-tui/src/tuiwright.rs:132-141 | the closed-form date of every day since the epoch is the date reached by counting days one at a time from 1970-01-01 |
| Calendar.CivilStep | crates/jeryu-tui/src/tuiwright.rs:132-141 | the closed form of the next day is the calendar successor, across month, year, leap-year and 400-year boundaries |
| Calendar.EpochIsDayZero | crates/jeryu-tui/src/tuiwright.rs:132-141 | day zero is 1970-01-01 |
| Calendar.DayCountIsUnique | crates/jeryu-tui/src/tuiwright.rs:123-144 | any assignment of dates that starts at the epoch and steps by calendar days is the day count |
| Calendar.DateAfter | crates/jeryu-tui/src/tuiwright.rs:119-144 | the reference counts only valid Gregorian dates, from 1970 on |
| Calendar.YearOfEraIsExact | crates/jeryu-tui/src/tuiwright.rs:135-135 | the corrected division names exactly the year whose days contain the given day of the era |
| Calendar.Civil64 | crates/jeryu-tui/src/tuiwright.rs:132-141 | the conversion in signed 64-bit integers agrees with unbounded integers for every day a second count can reach, so nothing overflows |
| Calendar.ChronoLikeIso | crates/jeryu-tui/src/tuiwright.rs:123-144 | every non-negative second gets the text of its counted date and of its time of day, every negative one nothing |
| Calendar.DaysAdvance | crates/jeryu-tui/src/tuiwright.rs:123-144 | later days have strictly later dates |
| Calendar.PaddedReadsBack | crates/jeryu-tui/src/tuiwright.rs:143-143 | a zero-padded decimal field reads back as the number, whatever its width |
| Calendar.IsoTextReadsBack | crates/jeryu-tui/src/tuiwright.rs:143-143 | the printed instant determines its date and its second of the day, also for years of more than four digits |
| Calendar.DistinctSecondsPrintDistinctly | crates/jeryu-tui/src/tuiwright.rs:123-144 | two seconds print alike only when they are the same second |
| PktLine.DecodeAll | crates/jeryu-gitd/src/pktline.rs:40-75 | the loop returns the packets the byte string falls into, or the first error |
| PktLine.HeadersReadExactly | crates/jeryu-gitd/src/pktline.rs:44-48 | a header reads as the number its hexadecimal digits of either case stand for, with a plus allowed in place of the first, and as nothing otherwise |
| PktLine.PacketsByTheirLength | crates/jeryu-gitd/src/pktline.rs:48-72 | lengths 0, 1 and 2 are the marks, 3 is refused, and any other is a payload of four bytes less, if it is there |
| PktLine.PrintThenDecode | crates/jeryu-gitd/src/pktline.rs:20-75 | printing packets and decoding them gives them back if and only if every payload has at most 65531 bytes |
| PktLine.OversizedPacketIsCut | crates/jeryu-gitd/src/pktline.rs:20-25 | a longer payload is always read back as a strictly shorter one |
| PktLine.HexOfLongLength | crates/jeryu-gitd/src/pktline.rs:20-25 | the first four digits of a longer length read as a smaller number |
| PktLine.HexReadsBack | crates/jeryu-gitd/src/pktline.rs:20-25 | a printed length reads back as itself |
| ReceivePack.ReceivePackCommands | crates/jeryu-gitd/src/pack.rs:174-281 | the parsing loop returns the commands of the body up to its first flush, or the error of the first offending record |
| ReceivePack.EnsureReceivePackPolicy | crates/jeryu-gitd/src/pack.rs:291-300 | a body passes exactly when it parses and no command names the main branch |
| ReceivePack.ReceivePackPreludeState | crates/jeryu-gitd/src/pack.rs:363-392 | scanning on from the carried offset gives the verdict of scanning from it and leaves the offset at a packet boundary reached from the old one |
| ReceivePack.ResumeEqualsRescan | crates/jeryu-gitd/src/pack.rs:305-392 | a boundary stays one when more bytes arrive, and scanning from it equals scanning from where the scan began |
| ReceivePack.ScanIsStable | crates/jeryu-gitd/src/pack.rs:363-392 | once the scanner is decided, no further byte changes its verdict |
| ReceivePack.NeedStaysInsidePrelude | crates/jeryu-gitd/src/pack.rs:363-392 | the scanner never asks for a byte past the end of the command section |
| ReceivePack.Reader.ReadExact | crates/jeryu-gitd/src/pack.rs:305-352 | a read takes the next bytes the stream delivers and no others, or fails because it ends or breaks off before them |
| ReceivePack.ReadReceivePackPrefix | crates/jeryu-gitd/src/pack.rs:305-352 | terminates; accepts exactly when the command section arrives within the limits and passes the policy, reports a protected ref exactly when it arrives and only the policy refuses; what it returns and the unread stream together are the original bytes, and it ends at the flush unless the caller's prefix was already longer |
| ReceivePack.ParserStopsAtFlush | crates/jeryu-gitd/src/pack.rs:174-281 | the parser gives the same answer on the command section the scanner delimits as on the whole body |
| ReceivePack.StreamedCheckRefinesBuffered | crates/jeryu-gitd/src/pack.rs:291-392 | the streamed check accepts a push if and only if the buffered check accepts its whole body and its command section arrives, flush-terminated and within the limits; both then see the same commands |
| ReceivePack.ParserForgivesOnlyAMissingFlush | crates/jeryu-gitd/src/pack.rs:174-392 | a body the parser accepts either has a complete command section or ends on a packet boundary without a flush |
| ReceivePackGrammar.AcceptedBodiesArePreludes | crates/jeryu-gitd/src/pack.rs:174-281 | a body is accepted with given commands if and only if up to its first flush or its end it is distinct well-formed shallow declarations followed by those commands: two ids of 40 lowercase hexadecimal digits and a ref name properly below `refs/` without space or NUL, one optional newline a record, and capabilities behind a NUL on the first command only |
| ReceivePackGrammar.PolicyAcceptsExactlyWhen | crates/jeryu-gitd/src/pack.rs:291-300 | the policy lets through exactly such bodies none of whose commands names the main branch, and denies exactly those with one that does |
| ReceivePackGrammar.PreludeArrivesExactlyWhen | crates/jeryu-gitd/src/pack.rs:305-392 | a command section arrives if and only if whole packets lead to a flush that ends within 1048576 bytes, the announced length and what is there |
| ReceivePackGrammar.ShallowRecordsExactly | crates/jeryu-gitd/src/pack.rs:215-250 | a record is a shallow declaration exactly before any command, for an id not declared yet, when it is that line |
| ReceivePackGrammar.CommandRecordsExactly | crates/jeryu-gitd/src/pack.rs:215-281 | a record is a command exactly when it is its line, with anything behind a NUL only for the first |
| ReceivePackPrint.PrintedCommandsParse | crates/jeryu-gitd/src/pack.rs:174-281 | printed commands, with capabilities on the first, a flush and any trailing bytes parse back to exactly those commands |
| ReceivePackPrint.PrintedPreludeParses | crates/jeryu-gitd/src/pack.rs:174-281 | the same with any number of distinct shallow declarations before the commands |
| Base64.Base64Decode | crates/jeryu-gitd/src/auth.rs:432-457 | the loop over a 32-bit accumulator computes the decoding that keeps only the pending bits |
| Base64.Base64EncodeNopad | crates/jeryu-gitd/src/auth.rs:460-477 | likewise for encoding: the bits that fall off the top never reach the text |
| Base64.BuildTable | crates/jeryu-gitd/src/auth.rs:432-437 | the lookup table inverts the alphabet and marks every other byte |
| Base64.LettersOfTheStandard | crates/jeryu-gitd/src/auth.rs:429-437 | the letters are those of the standard, in its order |
| Base64.SkippedSigns | crates/jeryu-gitd/src/auth.rs:442-444 | a padding sign, a line feed, a carriage return and a space are skipped, and nothing else |
| Base64.EncodeGroup | crates/jeryu-gitd/src/auth.rs:460-477 | three bytes become the four six-bit letters of section 4 of RFC 4648 |
| Base64.EncodeThenDecode | crates/jeryu-gitd/src/auth.rs:432-477 | decoding inverts encoding from every intermediate state of both loops |
| Base64.RoundTrip | crates/jeryu-gitd/src/auth.rs:432-477 | decoding an encoded byte sequence gives it back, for every byte sequence |
| Base64.InsertedSkipDoesNotMatter | crates/jeryu-gitd/src/auth.rs:442-444 | a padding sign, space, carriage return or line feed put anywhere into a text leaves its decoding unchanged |
| Base64.SkippedBytesDoNotMatter | crates/jeryu-gitd/src/auth.rs:442-444 | a text decodes as the text without its skipped bytes |
| Base64.DecodeRefusesExactlyForeignBytes | crates/jeryu-gitd/src/auth.rs:441-449 | a text is refused if and only if it holds a byte neither skipped nor in the alphabet |
| Base64.DecodeThenEncode | crates/jeryu-gitd/src/auth.rs:432-477 | encoding a decoded text repeats it if and only if no bits were dropped, from every intermediate state |
| Base64.TextRepeatsExactlyWhenClean | crates/jeryu-gitd/src/auth.rs:432-477 | a text of letters repeats through decoding and encoding if and only if it leaves no lone last letter and no set bits below its last byte |
| CommitGraph.AncestorIsTransitive | crates/jeryu-gitd/src/refs.rs:360-383 | ancestry composes along paths |
| CommitGraph.AncestorSurvives | crates/jeryu-gitd/src/refs.rs:263-304 | ancestry is kept when commits are added |
| RefService.DefaultRulesAllow | crates/jeryu-gitd/src/protection.rs:54-104 | under the default rules main is deleted or force-moved by the mirror only, and a tag is changed by nobody once it exists |
| RefService.ResolveSymbolicRef | crates/jeryu-gitd/src/refs.rs:332-352 | the hop loop finds the end of the chain as far as git answers, or reports a bad name, a chain too long or a git that does not start |
| RefService.TrueAnswersJudgeWhatIsWritten | crates/jeryu-gitd/src/refs.rs:332-352 | when git denies no symbolic ref of the chain, the name the service judges is the ref git writes through the one it was given |
| RefService.FollowsSevenHops | crates/jeryu-gitd/src/refs.rs:332-352 | with full answers a chain of at most seven symbolic refs with valid names leads to the direct ref behind it, and a longer one is refused as circular |
| RefService.NamesAreValidExactlyWhen | crates/jeryu-gitd/src/refs.rs:315-323 | a name is valid if and only if it starts with `refs/`, holds a second slash and no NUL, and git accepts it |
| RefService.ResolvedNamesAreValid | crates/jeryu-gitd/src/refs.rs:332-352 | what a chain is followed to is the name given or a valid one |
| RefService.ForcesExactlyWhen | crates/jeryu-gitd/src/refs.rs:360-383 | a change with a predecessor counts as forced exactly on tags, and on branches unless git confirmed the ancestry, which is asked on branches only |
| RefService.DecidesExactlyWhen | crates/jeryu-gitd/src/refs.rs:91-128 | an update may write if and only if its name is valid, the repository writable, the chain resolved, git answered what it was asked and every rule allows the change |
| RefService.NoAliasGetsAroundTheRules | crates/jeryu-gitd/src/refs.rs:91-128 | whatever alias is given, when git denies no symbolic ref no update by anyone but the mirror that passes the default rules deletes main or moves it after a "no", and none deletes or moves a tag, said of the ref that is written |
| RefService.UpdateRef | crates/jeryu-gitd/src/refs.rs:91-128 | the ref git reaches through the judged name is written and nothing else, when the checks and rules allow, git starts, the ids read as objects the ref may hold and it still holds the predecessor; otherwise nothing changes |
| RefService.MergesExactlyWhen | crates/jeryu-gitd/src/refs.rs:145-183 | a merge has something to write if and only if git found both commits and either the fast-forward is possible, and then it writes the head, or it is not demanded and a merge commit could be made |
| RefService.MergePull | crates/jeryu-gitd/src/refs.rs:145-193 | for any answers git gives: succeeds if and only if there is something to write, the rules allow it as forced or not, git starts, carries it out and the ref still holds the base; then that ref alone moves, to an object with base and head in its history; under the default rules it is denied if and only if it is judged as a move of a tag, or of main by anyone but the mirror after a "no" |
| RefService.MergeIsDeniedExactlyWhen | crates/jeryu-gitd/src/refs.rs:145-193 | the policy denies a write with a predecessor exactly on tags, and on main to anyone but the mirror after git answered "no" |
| RefService.MergeAncestryHolds | crates/jeryu-gitd/src/refs.rs:145-193 | with a whole object id for the base the truthful answer is "yes", so a "no" comes from a git that failed |
| RefInterleaving.NextKeeps | crates/jeryu-gitd/src/refs.rs:91-193 | every step of every interleaving, by anyone and with any ids and answers, keeps what each call in flight has established and every object |
| RefInterleaving.MainOnlyAdvances | crates/jeryu-gitd/src/refs.rs:91-193 | in every run in which git denied no symbolic ref to whoever is about to write main, who is not the mirror and uses whole object ids, main once present is never deleted and moves to descendants only, through whatever alias |
| RefInterleaving.TagsNeverMove | crates/jeryu-gitd/src/refs.rs:91-193 | in every run in which git denied no symbolic ref to whoever is about to write a tag, no tag moves or disappears, mirror and names included |
| RefInterleaving.PlainCallsAreCareful | crates/jeryu-gitd/src/refs.rs:91-193 | requests by anyone but the mirror, with whole object ids and for a ref that is not symbolic, meet both conditions whatever git answers |
| RefInterleaving.ReachableStaysReachable | crates/jeryu-gitd/src/refs.rs:91-193 | in such runs every commit ever reachable from main stays reachable from it |
| RefInterleaving.MergedHeadStays | crates/jeryu-gitd/src/refs.rs:145-193 | the base and the head of a merge that wrote main, given as whole object ids, stay in its history in every later state of such a run |
| RefInterleaving.MergeIsDeniedExactlyWhen | crates/jeryu-gitd/src/refs.rs:145-193 | in every run the policy denies a merge if and only if it is judged as a move of a tag, or of main by anyone but the mirror after git answered "no" |
| RefInterleaving.TheTruthIsYes | crates/jeryu-gitd/src/refs.rs:145-193 | in every run the truth is "yes" whenever a merge of whole object ids asks again |
| RefRaces.NewIdByName | crates/jeryu-gitd/src/refs.rs:91-128 | a run in which main follows a branch that gave the new id and moves to a commit that does not descend from it |
| RefRaces.MergeBaseByName | crates/jeryu-gitd/src/refs.rs:145-193 | a run in which a merge gives the name of main as its base and does not fail when main advances: main loses the commit it held at the write |
| RefRaces.AliasTakenAsDirect | crates/jeryu-gitd/src/refs.rs:332-352 | a run with whole object ids in which a failed question makes a symbolic ref count as a free branch, and main moves aside |
| RefRaces.FastForwardOfMainDenied | crates/jeryu-gitd/src/object_fsck.rs:105-111 | a run in which a fast-forward of main is denied as forced because git fails at the second question |
| Reviews.ReduceReviews | crates/jeryu-core/src/branch_protection/reviews.rs:43-114 | the loop computes the effective verdict of each author as a fold over the log |
| Reviews.EffectiveIsQualified | crates/jeryu-core/src/branch_protection/reviews.rs:43-114 | an effective verdict is a logged one of that author, for this head and reach, not withdrawn, and not an approval of a barred author |
| Reviews.EffectiveIsTheLastWord | crates/jeryu-core/src/branch_protection/reviews.rs:43-114 | a verdict is effective if and only if it is a qualified row of the log that no later row of its author replaces, withdraws or clears |
| Reviews.WithdrawnExactlyWhen | crates/jeryu-core/src/branch_protection/reviews.rs:141-178 | a withdrawn verdict is exactly one of the log that a dismissal with a recorded head names, by its own author or by recorded authority |
| Reviews.TakesSidesExactlyWhen | crates/jeryu-core/src/branch_protection/reviews.rs:141-178 | an administrator is barred exactly for such a dismissal of somebody else's verdict by recorded authority |
| Reviews.WithdrawnStaysWithdrawn | crates/jeryu-core/src/branch_protection/reviews.rs:43-178 | a withdrawn verdict is effective in no extension of the log, at no head and no reach |
| Reviews.BarredApproversStayBarred | crates/jeryu-core/src/branch_protection/reviews.rs:43-178 | neither the author of the pull request, where one is named, nor an administrator who withdrew another's verdict approves effectively, in any extension of the log |
| Reviews.NoEarlierVerdictComesBack | crates/jeryu-core/src/branch_protection/reviews.rs:43-114 | after a withdrawn verdict only a later row can speak for its author, in any extension of the log |
| Reviews.VerdictKeepsLens | crates/jeryu-core/src/branch_protection/reviews.rs:141-178 | a new verdict no recorded dismissal names changes neither the withdrawn verdicts nor the barred administrators |
| Reviews.AppendedApproval | crates/jeryu-core/src/branch_protection/reviews.rs:43-114 | an approval no recorded dismissal names changes at most the verdict of its own author, to itself |
| CodeOwners.LastMatchDecides | crates/jeryu-core/src/branch_protection/codeowners.rs:34-44 | the last rule whose pattern matches gives the owners, whatever the earlier rules say |
| CodeOwners.OwnedOnlyByAMatch | crates/jeryu-core/src/branch_protection/codeowners.rs:34-44 | owners come from a matching rule only |
| CodeOwners.DirectorySpellingsAgree | crates/jeryu-core/src/branch_protection/codeowners.rs:49-82 | the spellings `dir`, `dir/`, `dir/**` and `/dir` match the same paths: the directory and all below it |
| CodeOwners.PatternsMatchTexts | crates/jeryu-core/src/branch_protection/codeowners.rs:49-82 | said of the texts: a directory matches itself and what follows it and a slash, a star and a text every path that ends in the text, leading slashes of the path aside |
| MergeGate.EvaluateBranchProtection | crates/jeryu-core/src/branch_protection/evaluate.rs:16-177 | the evaluator returns the intrinsic blockers and, when the rule binds the actor, those of the rule, in order |
| MergeGate.MissingCodeOwners | crates/jeryu-core/src/branch_protection/evaluate.rs:16-177 | the loop over files collects exactly the paths no approver owns and their owners |
| MergeGate.NothingBlocksExactlyWhenMet | crates/jeryu-core/src/branch_protection/evaluate.rs:16-177 | nothing blocks a merge if and only if the requested head is the head, it is no draft, nobody effective asks for changes, a mandatory proof is there and, where the rule binds, approvals, checks, proof, history, signatures and code owners meet it |
| MergeGate.BlockersAreTrue | crates/jeryu-core/src/branch_protection/evaluate.rs:16-177 | every blocker says what is so: the mismatched heads, who asks for changes, how many approvals count of how many, which check is missing or failed, the first merge commit, the unsigned commits, the paths nobody approved for and who owns them |
| MergeGate.GatesReadTheHeadAndItsDiffOnly | crates/jeryu-core/src/branch_protection/reviews.rs:19-33 | deleting every approval and rejection recorded at another head and named by no dismissal leaves the blockers as they were, except that under a rule with neither strict setting, for a head with known patch ids, those recorded over the same ids have to stay |
| MergeGate.UnchangedDiffCarriesVerdicts | crates/jeryu-core/src/branch_protection/reviews.rs:19-33 | under a rule with neither setting, for a head with known patch ids, a verdict recorded over the same ids at any head counts exactly as if recorded at this one |
| MergeGate.CarriedApprovalIsCounted | crates/jeryu-core/src/branch_protection/reviews.rs:19-114 | such an approval, or one at the head, by somebody who may approve and whom nothing disputes, is among those counted |
| MergeGate.ApprovalNeverHurts | crates/jeryu-core/src/branch_protection/evaluate.rs:16-177 | appending an approval no recorded dismissal names adds no kind of blocker and worsens none, through every gate |
| MergeGate.TargetedApprovalCanHurt | crates/jeryu-core/src/branch_protection/reviews.rs:141-178 | an aside on that condition: in a log the service cannot write, an approval named by an earlier dismissal removes another one |
| ReviewLog.PullReviews.FindReview | crates/jeryu-core/src/engine/reviews.rs:197-202 | the scan finds the first row with the id |
| ReviewLog.PullReviews.DismissedOthersBefore | crates/jeryu-core/src/engine/reviews.rs:143-349 | the scan finds exactly whether the author, in any case, has withdrawn someone else's verdict |
| ReviewLog.PullReviews.MayDismiss | crates/jeryu-core/src/engine/reviews.rs:195-250 | who may withdraw which verdict, by what authority, or the first reason why not |
| ReviewLog.PullReviews.RecordReview | crates/jeryu-core/src/engine/reviews.rs:143-349 | a row is appended exactly when every check passes and it is stored; every refusal, and a failed store, leaves the log as it was |
| ReviewLog.RecordsExactlyWhen | crates/jeryu-core/src/engine/reviews.rs:143-349 | a row is recorded if and only if only a dismissal names a target, the author of the pull request does not approve it, nor whoever withdrew another's verdict, the head is the expected one, and the first row with the named id is a verdict that counts and is the author's own or withdrawn with authority by an administrator without a standing approval |
| ReviewLog.RunKeepsTargets | crates/jeryu-core/src/engine/reviews.rs:143-349 | in every log grown by any calls, whatever a dismissal names is itself in the log |
| ReviewLog.RecordedApprovalNeverHurts | crates/jeryu-core/src/engine/reviews.rs:143-349 | after any calls, a recorded approval adds no kind of blocker to the merge and worsens none, whatever the pull request, the rule and the gates; nothing is assumed of dismissals |
| ReviewLog.RecordedVerdictCountsAtOnce | crates/jeryu-core/src/engine/reviews.rs:143-349 | a recorded approval or rejection is at once its author's effective verdict at its head, at either reach, and changes nobody else's: the checks before recording leave none dead |
| ReviewLog.RecordedDismissalOnlyRemoves | crates/jeryu-core/src/engine/reviews.rs:222-225 | a recorded dismissal only removes verdicts, the one it names among them, and never adds one, at every head and reach |
| ReviewLog.StandingApprovalMatters | crates/jeryu-core/src/engine/reviews.rs:398-449 | why administrators with a standing approval may not dismiss: barring one lets an earlier rejection of theirs count again |
| Accounts.ForgeCore.ResetAccountPassword | crates/jeryu-core/src/engine/auth.rs:120-147 | a committed reset writes the hash, moves the epoch on and ends every credential of the account; the order of checks and the rollback of a failed store are kept |
| Accounts.ForgeCore.CheckCurrentPassword | crates/jeryu-core/src/engine/auth.rs:149-168 | passes exactly for a long enough new password and the current password of an active account |
| Accounts.ForgeCore.CommitPasswordChange | crates/jeryu-core/src/engine/auth.rs:169-186 | the second locked section of a change renews the account as it then is |
| Accounts.ForgeCore.ForcePasswordChange | crates/jeryu-core/src/engine/auth.rs:189-214 | only a forced change moves the epoch and ends credentials |
| Accounts.ForgeCore.TransitionAccountStatus | crates/jeryu-core/src/engine/auth.rs:745-790 | a real change of status from an allowed one renews the account; an equal status succeeds and changes nothing |
| Accounts.ForgeCore.SessionForToken | crates/jeryu-core/src/engine/auth.rs:259-272 | answers exactly for an unexpired session whose account is active and still at the session's epoch |
| Accounts.ForgeCore.AuthenticatePersonalAccessToken | crates/jeryu-core/src/engine/auth.rs:351-363 | a success rests on an unexpired token of that hash at its account's epoch; a refusal means there is none, or that the record found was stale |
| Accounts.ResetsExactlyWhen | crates/jeryu-core/src/engine/auth.rs:120-147 | a reset commits if and only if the password has twelve bytes, the account exists, it was hashed, the epoch is not the last and the state is stored; then exactly hash, demand, epoch and credentials change |
| Accounts.ChangesExactlyWhen | crates/jeryu-core/src/engine/auth.rs:169-186 | the same for the second half of a change |
| Accounts.ForcesExactlyWhen | crates/jeryu-core/src/engine/auth.rs:189-214 | the same for a forced change; lifting the demand leaves epoch and credentials |
| Accounts.TransitionsExactlyWhen | crates/jeryu-core/src/engine/auth.rs:745-790 | the same for a change of status from an allowed one |
| Accounts.AuthenticatesExactlyWhen | crates/jeryu-core/src/engine/auth.rs:259-363 | a session or token works exactly while unexpired and at the epoch of its active account |
| Accounts.ReadsExactlyWhen | crates/jeryu-core/src/engine/auth.rs:149-168 | only an active account is read for a mint or a password change, as it is |
| Accounts.MintsExactlyWhen | crates/jeryu-core/src/engine/auth.rs:220-312 | a stored mint adds the one session or token, with the login, epoch and expiry given, and nothing else |
| Accounts.FailedResetIsHarmlessExactlyWhen | crates/jeryu-core/src/engine/auth.rs:120-147 | a failing reset leaves the state as it was if and only if it stopped before the write, the epoch is below its last value, or the account already read like that; even otherwise every session and token works as before |
| Accounts.FailedChangeIsHarmlessExactlyWhen | crates/jeryu-core/src/engine/auth.rs:169-186 | the same for a change: stopped before the write, below the last epoch, or with the stored hash and no demand to change it |
| Accounts.FailedForceIsHarmlessExactlyWhen | crates/jeryu-core/src/engine/auth.rs:189-214 | the same for a forced change: stopped before the write, below the last epoch, or when the change was already demanded; lifting the demand fails without a trace |
| Accounts.FailedTransitionIsHarmlessExactlyWhen | crates/jeryu-core/src/engine/auth.rs:745-790 | the same for a status change: stopped before the write or below the last epoch |
| Accounts.FailedStatusChangesReviveOldSessions | crates/jeryu-core/src/engine/auth.rs:745-790 | at the last epoch three failing status changes silence a session and then make the same session work again |
| Accounts.RenewalKeepsItsPromise | crates/jeryu-core/src/engine/auth.rs:135-144 | after a committed renewal the account has the edited fields and the next epoch, none of its sessions and tokens is left, and no other account changed |
| AccountRuns.RenewalsTrim | crates/jeryu-core/src/engine/auth.rs:120-214 | every renewing call keeps all accounts, raises the epoch of its own account exactly when it commits, and adds no credential |
| AccountRuns.ApplyKeepsInv | crates/jeryu-core/src/engine/auth.rs:120-363 | every action keeps each credential's epoch at or below its account's, and below it exactly after a renewal later than its reading |
| AccountRuns.CredentialsWorkUntilTheNextRenewal | crates/jeryu-core/src/engine/auth.rs:120-363 | in every run a session or token authenticates if and only if it is unexpired, its account is active and no renewal committed after the reading it was minted from, even when it was inserted later |
| AccountRuns.RenewalIsForever | crates/jeryu-core/src/engine/auth.rs:120-363 | once a reset, change, forced change or real status change commits, whatever of that account authenticates in any continuation was minted from a later reading |
| AccountRuns.RenewalEndsEveryStoredCredential | crates/jeryu-core/src/engine/auth.rs:120-214 | in every run, a renewal that commits leaves its account with the promised fields and the next epoch, without one stored session or token, and every other account as it was |
| AccountRuns.CredentialsEndOnlyForTheirOwnReasons | crates/jeryu-core/src/engine/auth.rs:120-363 | in every run, a stored session or token that is gone was taken by an action of its own: revoked, replaced under its own key, or ended by a committed renewal of its own account |
| AccountRuns.ReadingsExactlyWhen | crates/jeryu-core/src/engine/auth.rs:149-312 | a mint or a change gets past its first half exactly for an active account, and a mint remembers its epoch |
| AccountRuns.RevocationsTakeTheirOwn | crates/jeryu-core/src/engine/auth.rs:280-349 | a stored revocation takes the one session, or the one token of that login, and nothing else |
| PasswordRuns.ObserveKeepsInv | crates/jeryu-core/src/engine/auth.rs:120-214 | every action keeps, for each change under way, that its account has the verified password exactly when no new one was committed since |
| PasswordRuns.ChangeReplacesWhatItVerified | crates/jeryu-core/src/engine/auth.rs:149-186 | in every run a change that commits replaces the password it had verified if and only if no reset or change of that account committed between its two halves |
| PasswordRuns.ChangeUnderWayOverridesReset | crates/jeryu-core/src/engine/auth.rs:149-186 | a run that shows the other case: a change under way replaces the password an administrator has just reset and lifts the demand to change it |
| Invitations.ForgeCore.CreateAccountInvitation | crates/jeryu-core/src/engine/auth.rs:404-515 | an invitation is added only beside no live one for its login, no account and, for a bootstrap, no administrator; every expired one is revoked with it |
| Invitations.ForgeCore.RevokeAccountInvitation | crates/jeryu-core/src/engine/auth.rs:535-550 | an open invitation is revoked, and only that is reported as a revocation |
| Invitations.ForgeCore.StartAccountActivation | crates/jeryu-core/src/engine/auth.rs:553-609 | without a live invitation nothing changes; with one, the attempt is counted even when the secret is wrong and the call fails, and a right one within five attempts buys a challenge |
| Invitations.ForgeCore.CompleteAccountActivation | crates/jeryu-core/src/engine/auth.rs:612-712 | an unspent live challenge of a live invitation turns into a pending account, team memberships and consumed records, or nothing changes |
| Invitations.LiveIsUnique | crates/jeryu-core/src/engine/auth.rs:565-575 | the search for the live invitation of a login has one possible result |
| Invitations.CreatesExactlyWhen | crates/jeryu-core/src/engine/auth.rs:404-515 | an invitation is created if and only if it is well formed, lasts at most a day, no account, organization or good invitation has its login, its teams exist, and a bootstrap meets neither an administrator nor another good bootstrap |
| Invitations.CreationSweeps | crates/jeryu-core/src/engine/auth.rs:404-515 | it starts without attempts, and of the others exactly the open ones that have run out are revoked |
| Invitations.RevokesExactlyWhen | crates/jeryu-core/src/engine/auth.rs:535-550 | a stored revocation takes an invitation neither consumed nor revoked, run out or not, and tells whether it did |
| Invitations.CompletesExactlyWhen | crates/jeryu-core/src/engine/auth.rs:612-712 | a completion succeeds if and only if the password was hashed, the challenge is unspent and not run out, its invitation is neither consumed, revoked nor run out, its login free, its teams there and, for a bootstrap, no administrator, and the state is stored |
| InvitationRuns.AfterKeepsInv | crates/jeryu-core/src/engine/auth.rs:404-712 | every call, and whatever else creates accounts, organizations and teams, keeps the bounds on invitations and challenges |
| InvitationRuns.AfterAdvances | crates/jeryu-core/src/engine/auth.rs:404-712 | consumed and revoked records never change again and attempts are never taken back |
| InvitationRuns.FinishConsumes | crates/jeryu-core/src/engine/auth.rs:612-712 | a successful activation consumes a challenge and an invitation that were not consumed before |
| InvitationRuns.EveryChallengeWasBought | crates/jeryu-core/src/engine/auth.rs:553-609 | in every run each new challenge was bought by a stored attempt, among the first five of an invitation then live, that brought the invitation's own secret |
| InvitationRuns.EveryActivationWasIntended | crates/jeryu-core/src/engine/auth.rs:612-712 | in every run each success came from an activation that created a pending account with the intended role, added it to exactly the intended teams and changed no other account |
| InvitationRuns.EverySuccessSpendsAFreshChallenge | crates/jeryu-core/src/engine/auth.rs:553-712 | in every run each success spends an unspent challenge that an earlier attempt of the run was given less than ten minutes before, of an invitation that still stands open |
| InvitationRuns.InvitationsStayInBounds | crates/jeryu-core/src/engine/auth.rs:404-712 | in every reachable state a login has at most one open invitation, there is at most one open bootstrap, attempts are at most five and bound the challenges, and consumed invitations have their account |
| InvitationRuns.ActivationsHappenOnce | crates/jeryu-core/src/engine/auth.rs:404-712 | over every run no invitation and no challenge completes twice, and at most one bootstrap owner is ever activated |
| Deployments.Forge.NextDeploymentId | crates/jeryu-core/src/engine/deployments.rs:305-307 | one more than the largest key is one more than the number of deployments ever created |
| Deployments.Forge.NextDeploymentStatusId | crates/jeryu-core/src/engine/deployments.rs:309-317 | one more than the largest id in any list is one more than the number of statuses ever appended |
| Deployments.Forge.CreateDeployment | crates/jeryu-core/src/engine/deployments.rs:29-74 | a stored deployment is appended to the history under the next id; any failure leaves everything as it was |
| Deployments.Forge.AppendStatuses | crates/jeryu-core/src/engine/deployments.rs:206-218 | appending to the per-deployment lists appends to the one log, in order |
| Deployments.Forge.SupersededBy | crates/jeryu-core/src/engine/deployments.rs:133-148 | the scan finds, in order of id, the other lasting deployments of the environment whose newest status is a success |
| Deployments.Forge.CreateDeploymentStatus | crates/jeryu-core/src/engine/deployments.rs:111-166 | the posted status and the inactive ones it causes are appended as one batch, or nothing is |
| Deployments.Forge.SummarizeEnvironment | crates/jeryu-core/src/engine/deployments.rs:229-274 | the latest deployment, the live one with the newest success, and besides it the one with the newest success of all |
| Deployments.LastSuccessIsLast | crates/jeryu-core/src/engine/deployments.rs:246-262 | the success a deployment is ranked by among the previous ones is one of its list after which no other comes |
| Deployments.OfIsFilter | crates/jeryu-core/src/engine/deployments.rs:206-218 | a deployment's list holds exactly its statuses of the log, in strictly increasing order of id |
| Deployments.BatchTouchesEachOnce | crates/jeryu-core/src/engine/deployments.rs:123-164 | a batch continues the numbering, begins with the posted status and touches each deployment at most once |
| DeploymentRuns.IdsCountUp | crates/jeryu-core/src/engine/deployments.rs:111-317 | after every run statuses are numbered from 1 in the order of appending, and every list is strictly increasing |
| DeploymentRuns.NewestPosted | crates/jeryu-core/src/engine/deployments.rs:111-166 | a posted status becomes the newest of its target, makes the newest of what it supersedes an inactive one and leaves every other newest status alone |
| DeploymentRuns.EnvironmentsAreIsolated | crates/jeryu-core/src/engine/deployments.rs:132-148 | a post leaves the newest status of every deployment of another repository or environment, and of every other transient one, as it was |
| DeploymentRuns.RunKeepsOneLive | crates/jeryu-core/src/engine/deployments.rs:111-166 | when an environment has only lasting deployments and every success there supersedes, at most one stays live, with the last success ever |
| DeploymentRuns.CurrentIsTheOnlyLiveDeployment | crates/jeryu-core/src/engine/deployments.rs:111-274 | then the summary's current deployment is the only live one and holds the greatest success id ever appended there, whatever happens elsewhere |
| DeploymentRuns.DisciplineIsNeeded | crates/jeryu-core/src/engine/deployments.rs:132-132 | without superseding, a run leaves two deployments of one environment live |
| PackRpcGate.NewGate | crates/jeryu-gitd/src/pack_rpc.rs:72-79 | every gate admits at least one call and waits at most 300 seconds |
| PackRpcGate.NextKeepsInv | crates/jeryu-gitd/src/pack_rpc.rs:108-151 | every step of any number of threads keeps the count of slots, the mutex, the wake-up and the waiting-time invariants |
| PackRpcGate.GateIsSafe | crates/jeryu-gitd/src/pack_rpc.rs:108-151 | in every reachable state the counter equals the slots held and is within the limit, one thread holds the mutex, and sleepers beside a free slot have a notification coming |
| PackRpcGate.ReleaseNeverSaturates | crates/jeryu-gitd/src/pack_rpc.rs:139-147 | whoever gives a slot back finds the counter at least one |
| PackRpcGate.RefusedOnlyWhenFull | crates/jeryu-gitd/src/pack_rpc.rs:115-122 | a call is refused only after its whole wait and only while every slot is held |
| PackRpcGate.SleeperIsWokenByItsNotifier | crates/jeryu-gitd/src/pack_rpc.rs:108-151 | in every run, while someone sleeps beside a free slot, some thread has a notification to give, and by the time it has given it the sleeper was woken |
| PackRpcGate.NoDeadlock | crates/jeryu-gitd/src/pack_rpc.rs:108-151 | some thread that is not asleep can always move, so progress never hangs on a timeout |
| PackRpcAdmission.Admission.Close | crates/jeryu-gitd/src/pack_rpc.rs:229-243 | the first closing frees the slot and emits one record; later ones do nothing |
| PackRpcAdmission.Admission.Finish | crates/jeryu-gitd/src/pack_rpc.rs:225-249 | finishing and the drop that follows free one slot and emit one record |
| PackRpcAdmission.Admit | crates/jeryu-gitd/src/pack_rpc.rs:291-318 | an admitted call holds one slot and no record yet; a refused one leaves a record and no slot |
| PackRpcAdmission.RecordStreamed | crates/jeryu-gitd/src/pack_rpc.rs:273-287 | a streamed call holds no slot and has limit zero |
| PackRpcAdmission.Admitted | crates/jeryu-gitd/src/pack_rpc.rs:322-334 | one whole call, with no other entering or leaving meanwhile, leaves the gate as it was and exactly one record, whose outcome tells refusal, success and failure apart |
| PackRpcAdmission.Abandoned | crates/jeryu-gitd/src/pack_rpc.rs:246-250 | one abandoned call, likewise alone, leaves the gate as it was and one record of failure |
| PackRpcLedger.GateOf | crates/jeryu-gitd/src/pack_rpc.rs:108-151 | calls with their records, streamed ones included, run through the gate as its own threads do |
| PackRpcLedger.FollowingKeepsInv | crates/jeryu-gitd/src/pack_rpc.rs:229-334 | every step of any number of threads keeps each call in step with its thread, the balance and the truth of the records |
| PackRpcLedger.RecordsBalance | crates/jeryu-gitd/src/pack_rpc.rs:229-334 | in every reachable state the records of refusals, of admitted calls and of streamed ones are each as many as came to be, less those under way or not yet recorded; the counter is the number of slots held; every record is true of its call |
| PackRpcLedger.EveryRpcIsRecordedOnce | crates/jeryu-gitd/src/pack_rpc.rs:229-334 | once nothing is under way the gate is empty and each refusal, admission and stream has exactly one record |
| LfsStore.ObjectPathNamesTheObject | crates/jeryu-gitd/src/lfs.rs:45-48 | the path of an object determines its id up to case and is two directories and a file of hexadecimal names below the root; normalizing is idempotent |
| LfsStore.NormalizesExactlyWhen | crates/jeryu-gitd/src/lfs.rs:380-387 | an object id is 64 hexadecimal digits, kept in lower case |
| LfsStore.Store.CreateTempFile | crates/jeryu-gitd/src/lfs.rs:499-524 | a file that did not exist is created, unless the first 64 names proposed are all taken or opening one fails otherwise |
| LfsStore.Store.Receive | crates/jeryu-gitd/src/lfs.rs:93-112 | the reading loop stores exactly what it hashes, and succeeds exactly when nothing fails and the total is within the limit |
| LfsStore.Store.PutReaderWithLimit | crates/jeryu-gitd/src/lfs.rs:73-141 | succeeds if and only if the id is well formed, the directories are made, a name is found, no call fails and the bytes match size, limit and hash; leaves the object and no temporary file, and never changes an object already there |
| LfsPublish.ActsKeepsInv | crates/jeryu-gitd/src/lfs.rs:73-141 | a file system call of one put keeps what every other put relies on |
| LfsPublish.LosingPowerKeepsInv | crates/jeryu-gitd/src/lfs.rs:113-136 | because files are synced before the rename, a power loss leaves no damaged object, whether the old or the new file of an object comes back |
| LfsPublish.PublishedObjectsAreGenuine | crates/jeryu-gitd/src/lfs.rs:73-141 | in every state reached from good objects, what sits under an object's path hashes to its id and is within the limit of the put that wrote it |
| LfsPublish.NoSharedTemporaryFile | crates/jeryu-gitd/src/lfs.rs:499-524 | no two puts, in whatever processes, have the same temporary file |
| LfsPublish.ReturnedPutsLeaveNothingBehind | crates/jeryu-gitd/src/lfs.rs:126-140 | a returned put leaves no temporary file unless removing it failed, and a successful one leaves its object |
| LfsDurability.SurvivesExactlyWhen | crates/jeryu-gitd/src/lfs.rs:113-136 | an object survives every power loss if and only if its entry and the directories above it are on disk |
| LfsDurability.DurableForGood | crates/jeryu-gitd/src/lfs.rs:73-141 | once they are, the object is there in every later state, through any crashes and power losses |
| LfsDurability.OnDiskExactlyWhenSynced | crates/jeryu-gitd/src/lfs.rs:126-136 | between power losses an entry is on disk if and only if it was at first or some put has synced its directory while the object was there |
| LfsDurability.OwnObjectSurvivesExactlyWhen | crates/jeryu-gitd/src/lfs.rs:134-136 | where directories can be synced, the object of a put that renamed it and returned well survives a power loss if and only if the directories above it are on disk |
| LfsDurability.NewDirectoryMayVanish | crates/jeryu-gitd/src/lfs.rs:73-136 | a run that ends with such a put, in a directory made for it, whose object does not survive |
| LfsDurability.DuplicateMayVanish | crates/jeryu-gitd/src/lfs.rs:127-132 | a run that ends with a put that returned well because its object was there, which does not survive though its directory is on disk |
| Restore.PlanRestore | crates/jeryu-mirror/src/restore.rs:129-256 | the outcome is the plan for the target as it was before the run, dry or real; a dry run leaves the target alone, a real one adds the planned repositories and exactly the planned numbers of items, and one that fails has added those before the repository it stopped at |
| Restore.EnsureUnique | crates/jeryu-mirror/src/restore.rs:258-272 | the scan passes exactly when no two items share a key |
| Restore.RestoreRepository | crates/jeryu-mirror/src/restore.rs:170-250 | the loops of one repository add its commands, counts and secrets to the report, and in a real run its items to the target |
| Restore.CreatedKinds | crates/jeryu-mirror/src/restore.rs:170-250 | branches, issues, pull requests, releases and artifacts are created at the target; webhooks and apps are only listed |
| Restore.SortDedupIsTheSortedSet | crates/jeryu-mirror/src/restore.rs:253-254 | sorting and removing repetitions gives a strictly sorted list of the same names |
| Restore.SortedListIsUnique | crates/jeryu-mirror/src/restore.rs:253-254 | there is only one strictly sorted list of a set of names |
| RestoreTheorems.DryRunPredictsRealRun | crates/jeryu-mirror/src/restore.rs:129-256 | from one target a dry and a real run fail alike or report the same but for the label |
| RestoreTheorems.DryThenReal | crates/jeryu-mirror/src/restore.rs:129-256 | a dry run followed by a real one on the same target fails alike or reports the same but for the label, and what the real one adds is what the dry one announced |
| RestoreTheorems.FailsExactlyOnDuplicates | crates/jeryu-mirror/src/restore.rs:140-171 | a restore fails if and only if a repository is repeated or one that would be created repeats a key in one of its lists |
| RestoreTheorems.StopsAtTheFirstFault | crates/jeryu-mirror/src/restore.rs:140-171 | a failing run stops at the first repository that is repeated or repeats a key |
| RestoreTheorems.ReportCountsWhatIsPlanned | crates/jeryu-mirror/src/restore.rs:129-256 | every repository is planned or blocked, each counter is the number of items of the planned ones, and there is one command for each thing counted |
| RestoreTheorems.ReportIsTheList | crates/jeryu-mirror/src/restore.rs:129-256 | the report lists, repository by repository, the creation and then branches, issues, pull requests, releases and, each by its own option, artifacts, webhooks and apps, and names the repositories that are there already |
| RestoreTheorems.RepositoriesComeFirst | crates/jeryu-mirror/src/restore.rs:170-250 | in the list of commands every item comes after the creation of its repository |
| RestoreTheorems.SecretListIsExact | crates/jeryu-mirror/src/restore.rs:225-254 | the reported secrets are exactly the names the restored webhooks and apps need, each once and in order, and no other list is |
| RestoreTheorems.TargetGrowsByThePlan | crates/jeryu-mirror/src/restore.rs:82-85 | the target gains as many repositories as planned if and only if none was there before, which requiring an empty target guarantees |
| Rekey.DecodeSlashes | crates/jeryu-core/src/engine/branch_protection.rs:447-457 | the search loop replaces every encoded slash, from left to right |
| Rekey.DecodeIsClean | crates/jeryu-core/src/engine/branch_protection.rs:443-457 | a decoded name holds no encoded slash, decoding twice is decoding once, and a name is unchanged if and only if it had none |
| Rekey.EncodedSlashesDecode | crates/jeryu-core/src/engine/branch_protection.rs:447-457 | `%2F` and `%2f` become a slash wherever they stand |
| Rekey.EncodedNamesHoldAnEncodedSlash | crates/jeryu-core/src/engine/branch_protection.rs:443-446 | a name counts as encoded exactly when it holds one of the two |
| Rekey.ForgeCore.PlanRekey | crates/jeryu-core/src/engine/branch_protection.rs:156-184 | only a global admin gets a plan, one step for each encoded rule in whatever order; a failed lookup gives none and changes nothing |
| Rekey.ForgeCore.ApplyRekey | crates/jeryu-core/src/engine/branch_protection.rs:189-232 | the plan is carried out step by step on the rules as they now are; a failed store restores them and is not even tried when all is kept, while a failed audit entry returns an error with the rules repaired |
| RekeyTheorems.RepairConservesRules | crates/jeryu-core/src/engine/branch_protection.rs:152-232 | for any order and any rules at the time of the write: the count before is the count after and the removals, plain rules are untouched, a moved rule differs in its branch only, a removed one required no checks and leaves a rule for its decoded branch |
| RekeyTheorems.ProcessConserves | crates/jeryu-core/src/engine/branch_protection.rs:189-213 | the same after every prefix of the plan |
| RekeyTheorems.SecondRepairChangesNothing | crates/jeryu-core/src/engine/branch_protection.rs:152-232 | a second repair with the same answers from git and no edits in between keeps every rule, in any order |
| RekeyTheorems.RepairTakesExactlyTheMisfiled | crates/jeryu-core/src/engine/branch_protection.rs:156-232 | a repair planned from the same rules takes an encoded rule away if and only if its repository is known and unarchived, it is not the default branch, git has no branch of the encoded name but one of the decoded name, and either it requires no checks or no rule has the decoded name, at first or by an earlier repair; every other encoded rule stays as it was |
| RekeyTheorems.ReportListsEveryKeyOnce | crates/jeryu-core/src/engine/branch_protection.rs:189-213 | moved, removed and kept keys together are the planned keys as a multiset, and as many are listed as removed as rules were removed |
| RekeyTheorems.ReportSortsByDecision | crates/jeryu-core/src/engine/branch_protection.rs:189-213 | a key is reported as moved, removed or kept exactly when that was decided for it |

## Left out

- Git itself, SSH, HTTP and subprocesses: git is objects with their parents, a ref map with compare-and-swap and answers passed in; how it reads a revision that is no whole object id is a function of the refs and objects.
- The ref guard of pushes in crates/jeryu-gitd/src/hooks.rs, and symbolic refs that change during a run.
- SQLite, the audit log, webhooks and events: a locked section commits or rolls back by a flag.
- Password hashing, token generation and SHA-256: functions and fresh values passed in; constant-time comparison is equality.
- Created and updated times, descriptions, display names, order numbers and the texts of errors.
- The user records that account creation adds, bots, bot tokens and password recovery; the last renews an account in the same way.
- ReceivePack.ReadReceivePackPrefix: how much of the stream a refused request has consumed is not stated, because the source promises nothing there.
- MergeGate.MissingCodeOwners: paths and owners are sets, so the order in which the source lists them is not captured.
- MergeGate.EvaluateBranchProtection: which check run answers for a required context, and how stale it may be, is a function passed in.
- ReviewLog: whether the pull request exists, the login is well formed and the repository may be written is one flag, and whether the author is a repository administrator the branch lets dismiss others another; the reason and the form of the head a dismissal gives, user profiles, review comments, receipts and events are left out.
- CodeOwners: reading the text of the file into rules.
- Invitations.ForgeCore.CreateAccountInvitation: the checks on names and the splitting of team bindings are one flag; team members are a set, kept in no order.
- Deployments.Forge.CreateDeployment: ids are unbounded, so the overflow of a 64-bit id is not captured; payloads, refs and descriptions are left out.
- Deployments: listing with filters, which only reads.
- PackRpcGate: reading the environment, and poisoning of the mutex, which the source ignores.
- PackRpcAdmission.Admitted: speaks of one call alone, as does PackRpcAdmission.Abandoned; PackRpcLedger has any number at once.
- PackRpcAdmission.Admit: how the wait ended is a parameter; PackRpcGate models the wait.
- LfsPublish: the counter of temporary names does not wrap.
- LfsPublish.NoSharedTemporaryFile: running processes that share a store have distinct process ids, which containers with a process namespace each need not have.
- LfsStore: the batch interface, links and the reading side.
- Restore: the items are keys, titles and secret names, and only the in-memory target is modelled; commands are values, not texts.
- Rekey: what the audit entries say, and what a rule says besides its branch and its required checks is one opaque value.
- The bug tracker, the terminal interface, drift and overlap analysis and the read models.
