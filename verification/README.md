# byn: verified models

byn is a secrets manager with a daemon, a command line and an audit log. This project models five
parts of it in Dafny and proves what they are for.

- **The audit chain** (`Audit*.dfy`). Every event is one line of a monthly file and carries a MAC over
  the previous line's MAC and its own contents; the last MAC is mirrored in a store that is written
  after the line. The verifier walks the chain and steps over breaks that a signed reseal marker
  acknowledges. MACs are a free term algebra, mutually recursive with the events and markers they
  cover, so no event can hold its own MAC. `AuditChain` and `AuditTamper` say what the verifier accepts;
  `AuditReseal` when resealing ends; `AuditRuns` what every run of starts, crashes, failed writes,
  appends and reseals leaves behind; `AuditForks` what can be passed off as such a log without the seed.
  `AuditFiles`, `AuditTail` and `AuditTears` take it down to sorted files of bytes and cut writes;
  `AuditFileRuns` proves the runs over these files, from an empty vault on, and `AuditMonths` that their
  names sort by date; `AuditLogger` holds the logger's own methods, each of which is one call of such a run; `AuditPaging` is the client's loop over
  pages of events.
- **The .env printer and parser** (`Text.dfy`, `Dotenv*.dfy`): what survives export and import, exactly
  (`DotenvRoundTrip`, `DotenvSurvival`), and what the lines and comment blocks mean that only people write
  (`DotenvLines`, `DotenvBlocks`).
- **The flags of `byn exec`** (`Exec*.dfy` but `ExecJobs`): nine passes over one command line against a
  single reading of it, and which command is then run.
- **Stopping jobs** (`ProcTree.dfy`, `ExecJobs.dfy`): the walk over a process table that may hold cycles,
  the classifier that picks the jobs, and that together they reach every process.
- **Greedy wrapping** (`Wrap.dfy`): no wrapping of the words uses fewer lines.

Objects whose fields the program updates are classes here (`Vault`, `Logger`, `CommentBlock`), its loops
are methods with invariants, and each method is proved against a function or a relation whose own
properties are lemmas beside it. `Wrappers.dfy` holds `Option`, `Result` and two facts about sequences.

## What turned out false, and what holds instead

- Repeated `Reseal` need not end. A later marker replaces an earlier one for the same recorded head, so
  two breaks that share a recorded head but expect different MACs are never both acknowledged
  (`ResealCanLoopForever`). It ends exactly when breaks with one recorded head expect one MAC
  (`ResealTerminatesExactlyWhen`).
- The package comment and `docs/audit.md` say that truncation shows against the stored head. The verifier
  does not look at the stored head (`TruncationIsInvisible`), and the next start-up overwrites it with the
  head of what is left. Only when every line is gone does the store keep the old head, and then the next
  line written is a break (`StartAdoptsTruncation`, `EmptiedLogBreaksNext`).
- The package comment says a crash leaves at most the store behind. A store update that fails without
  ending the process leaves the logger's own head behind as well, and its next line is a break
  (`BreaksAreForks`, `IntactExactlyWithoutForks`).
- Restarting and resealing repairs a run's log exactly when breaks with one recorded head expect one MAC
  (`RestartAndResealRepairs`). Equal events, time included, behind lost head updates can make that fail
  (`SomeRunsAreBeyondRepair`).
- Deletion of a line shows in an intact log, but not always in one that has forked
  (`DeletionBehindForkIsUnseen`); `OnlyPathsAreAccepted` says what is accepted then.
- A write cut short is skipped by start-up and by `Tail`, but the next append to the same file is glued to
  the fragment and lost, and no later append makes the verifier pass again (`AppendAfterCut`,
  `TornRunsNeverVerify`). `Tail` fails for good once a later month's file exists (`TornInOlderStays`).
  `FilesIntactExactlyWhen` says exactly which runs leave files that verify.
- `.env` values do not all come back: `ValueRoundTripsExactlyWhen` has the exact condition. Unescaping is four
  replacements one after another, so a backslash in front of `n` or `t` is read wrongly, and a quote ends the value.
- The nine passes and one reading can part in front of an alias name, when a flag with an optional value is
  freed of the flags between it and the name (`AliasTakenAsDuration`); never without one.
  `ReadsAsOneExactlyWhen` has the exact condition.
- Stopping all listed jobs misses processes of the service account that are each other's ancestors
  (`CycleIsMissed`) and those beneath an unlisted daemon (`DaemonHeadIsMissed`).
  `KillAllReachesExactlyWhen` has the exact condition: the table shows neither.

## Model

| member | source | states |
|---|---|---|
| AuditChain.WalkChain | internal/audit/audit.go:369-420 | the two passes over the log return what the one-line-at-a-time description `WalkOf` says: the first line that neither verifies nor is acknowledged, what is recorded and expected there, and how many breaks were stepped over |
| AuditChain.StopIndex | internal/audit/audit.go:385-419 | every line before the stop is readable and passes; the line at the stop does not |
| AuditTamper.WalkAcceptsExactlyIntact | internal/audit/audit.go:385-419 | "intact, nothing acknowledged" if and only if every line carries the MAC it must |
| AuditTamper.NoBreaksMeansVerified | internal/audit/audit.go:405-416 | the count of breaks is zero if and only if every line verifies |
| AuditTamper.BadIndexIsLeast | internal/audit/audit.go:385-419 | the reported index is the least line that neither verifies nor is acknowledged |
| AuditTamper.AckHasLine | internal/audit/audit.go:374-383 | every marker the walk consults stands on a line of the log and names the head it is filed under |
| AuditTamper.AckGrows | internal/audit/audit.go:374-419 | an acknowledging marker is a strictly larger term than the line it acknowledges |
| AuditTamper.AckPathNeverRepeats | internal/audit/audit.go:374-419 | no marker and no ring of markers acknowledges itself |
| AuditTamper.BridgeSoundness | internal/audit/audit.go:374-419 | in every accepted log each break leads, marker to marker, to a marker line that carries its own MAC |
| AuditTamper.ForgedMarkersClearNothing | internal/audit/audit.go:374-419 | without one marker line that itself verifies only intact logs are accepted |
| AuditTamper.LastHeadDeterminesLog | internal/audit/audit.go:5-13 | two intact logs under one seed that end in one head are the same log |
| AuditTamper.HeadsGrow | internal/audit/audit.go:564-573 | in an intact log no two lines share a chain value |
| AuditTamper.TruncationIsInvisible | internal/audit/audit.go:385-419 | every proper prefix of an intact log is reported intact, and only its last head differs |
| AuditTamper.EditIsReported | internal/audit/audit.go:385-419 | in an intact log without markers, replacing line i by any other line, a marker included, is reported exactly at i, or at i+1 if the new line is itself correctly signed |
| AuditTamper.InsertionIsReported | internal/audit/audit.go:5-13 | in an intact log without markers, an inserted line is reported exactly there, or at the line after it when it is signed or a copy |
| AuditTamper.DeletionIsReported | internal/audit/audit.go:5-13 | in an intact log without markers, deleting any line but the last is reported exactly there |
| AuditTamper.ExchangeIsReported | internal/audit/audit.go:385-419 | in an intact log without markers, exchanging two lines is reported at the first of them |
| AuditTamper.MisplacedLineFails | internal/audit/audit.go:385-419 | a later line of an intact log standing in place i, after an agreeing start, is reported at i; both logs without markers |
| AuditTamper.VerifiedLineWasIssued | internal/audit/audit.go:281-306 | when the issued log is intact, a verifying line whose MAC was issued is an issued line with the same predecessor |
| AuditTamper.OnlyTruncationsAreAccepted | internal/audit/audit.go:5-13 | when the issued log is intact and without markers: among logs made of issued MACs and unsigned material exactly its prefixes are accepted |
| AuditForks.VerifiesExactlyWhenLinked | internal/audit/audit.go:385-419 | whatever the issued log was, without the seed a line verifies if and only if it is an issued one right after the line it was linked to |
| AuditForks.AcceptedExactlyWhenLinkedOrAcked | internal/audit/audit.go:369-420 | with forks and acknowledged breaks: accepted if and only if every line is such a line or is acknowledged |
| AuditForks.AckedLeadsToIssuedMarker | internal/audit/audit.go:374-419 | and every acknowledged line leads to an issued marker line in its place |
| AuditForks.OnlyPathsAreAccepted | internal/audit/audit.go:5-13 | of a log without markers, forked or not, exactly the paths from the root of the tree its lines form are accepted |
| AuditForks.RunLinesAreSigned | internal/audit/audit.go:281-300 | every run's log is of that kind |
| AuditForks.DeletionBehindForkIsUnseen | internal/audit/audit.go:5-13 | a run whose log verifies with nothing acknowledged once one of its lines is left out |
| AuditReseal.WalkFindsFirstUnacked | internal/audit/audit.go:385-419 | the reported index is the first break no marker acknowledges, and -1 says there is none |
| AuditReseal.ResealEffect | internal/audit/audit.go:436-457 | a reseal keeps every earlier line, appends a marker that itself verifies, and acknowledges the reported break |
| AuditReseal.ResealKeepsAgreement | internal/audit/audit.go:436-457 | whether breaks with one recorded head expect one MAC is not changed by resealing |
| AuditReseal.ResealProgress | internal/audit/audit.go:436-457 | a reseal acknowledges all breaks that share the reported head and no others |
| AuditReseal.ResealClearsOne | internal/audit/audit.go:436-457 | with distinct heads at the breaks, exactly the reported break is cleared |
| AuditReseal.OneResealPerBreak | internal/audit/audit.go:436-457 | with distinct heads at the breaks, a sequence of reseals ends in acceptance if and only if it is at least as long as there are unacknowledged breaks |
| AuditReseal.ResealsCountDown | internal/audit/audit.go:369-457 | each reseal clears one recorded head, until none is left |
| AuditReseal.NoHeadsMeansNoBreaks | internal/audit/audit.go:436-446 | the walk reports -1 if and only if no break is unacknowledged |
| AuditReseal.DisagreementNeverClears | internal/audit/audit.go:374-383 | two breaks with one recorded head and different expected MACs are never both acknowledged |
| AuditReseal.ResealTerminatesExactlyWhen | internal/audit/audit.go:369-457 | some number of reseals reaches "nothing to reseal" if and only if breaks with one recorded head expect one MAC; the number needed is that of such heads |
| AuditReseal.ResealCanLoopForever | internal/audit/audit.go:374-383 | a two-line log that no number of reseals clears |
| AuditRuns.RunsStayReachable | internal/audit/audit.go:134-181 | in every run a running logger's head equals the stored head and every line is readable |
| AuditRuns.LagIsStaleHead | internal/audit/audit.go:239-269 | a running logger's head is behind the log exactly when the last line was written without its head being stored and there was no start since |
| AuditRuns.BreaksAreForks | internal/audit/audit.go:239-269 | a line fails to verify if and only if the step that wrote it ran behind such a failure |
| AuditRuns.AsManyBreaksAsForks | internal/audit/audit.go:160-172 | the log holds as many breaks as the run has such steps |
| AuditRuns.IntactExactlyWithoutForks | internal/audit/audit.go:239-269 | the walk returns -1 with nothing acknowledged if and only if the run never appended behind a lost head update |
| AuditRuns.FailStopRunsAreIntact | internal/audit/audit.go:134-181 | for every interleaving of whole-line writes in which a lost head update ends the process the log is intact, and start-up leaves memory and store at the last head; over files, with cut writes, this is `AuditFileRuns.FailStopFilesAreIntact` |
| AuditRuns.StartRestoresHead | internal/audit/audit.go:160-172 | after any run start-up leaves memory and store at the last recorded head and the log as it was |
| AuditRuns.StartPreventsFork | internal/audit/audit.go:160-172 | a start right before a write means that write is no break |
| AuditRuns.StartAdoptsTruncation | internal/audit/audit.go:160-172 | started on a truncated log, the store takes over the head of what is left, and keeps the old one if and only if nothing is left; the verifier finds what is left intact |
| AuditRuns.EmptiedLogBreaksNext | internal/audit/audit.go:160-172 | after every line is gone, the next line written is reported at index 0 |
| AuditRuns.ResealStepsReseal | internal/audit/audit.go:436-457 | a run's reseal steps do to its log what `Resealed` says |
| AuditRuns.RestartAndResealRepairs | internal/audit/audit.go:436-457 | after any run, a restart and some number of reseals make the verifier accept if and only if breaks with one recorded head expect one MAC |
| AuditRuns.DistinctTimesNeedOneResealEach | internal/audit/audit.go:436-457 | when no two lines carry the same time, it takes one reseal per unacknowledged break and no fewer; no line is changed |
| AuditRuns.SomeRunsAreBeyondRepair | internal/audit/audit.go:239-269 | a run whose log no restart and number of reseals repairs |
| AuditFiles.SplitLines | internal/audit/audit.go:577-589 | the loop returns the pieces between newlines, a last piece only if it is not empty |
| AuditFiles.SplitConcat | internal/audit/audit.go:577-589 | after text that ends in a newline, more text adds its own lines and changes none |
| AuditFiles.SplitIsInvertible | internal/audit/audit.go:577-589 | joining the pieces gives the text back, with the newline that may have been missing |
| AuditFiles.SplitLinesHoldNoNewline | internal/audit/audit.go:577-589 | no piece holds a newline |
| AuditFiles.SortStrings | internal/audit/audit.go:594-600 | in place, the array becomes its own sorted rearrangement |
| AuditFiles.SinkLeft | internal/audit/audit.go:594-600 | the inner loop inserts one element into the sorted part and leaves the rest |
| AuditFiles.SortNamesSorts | internal/audit/audit.go:594-600 | what sorting yields is ordered, by the order `AuditMonths.StrLeByFirstDifference` pins, and a permutation |
| AuditMonths.StrLeByFirstDifference | internal/audit/audit.go:594-600 | the order of names is that of their first difference, a beginning first |
| AuditMonths.NamesSortByDate | internal/audit/audit.go:309-310 | the file of one month sorts no later than that of another if and only if the month is no later |
| AuditMonths.EarlierMonthFirst | internal/audit/audit.go:327-356 | of two months' files, however the directory lists them, the earlier month's lines are read first |
| AuditMonths.DatedInOrder | internal/audit/audit.go:309-356 | from an empty directory, while the calendar goes forward, line i of the log is the i-th event written |
| AuditMonths.CallsByDate | internal/audit/audit.go:309-310 | for calls into the files of months, months going forward in the sense of the runs over files is the calendar going forward |
| AuditFiles.AppendToNewest | internal/audit/audit.go:327-356 | bytes appended to the newest file change only what that file contributes, at the end of the log |
| AuditFiles.AppendToFinished | internal/audit/audit.go:309-356 | bytes appended to the newest file, when it is finished, add exactly their own lines at the end of the log |
| AuditTail.TailNumbersLikeWalk | internal/audit/audit.go:497-560 | when every line parses, event i of the log has index i |
| AuditTail.MatchingIsExact | internal/audit/audit.go:497-560 | filtering keeps exactly the matching events, with strictly increasing indices |
| AuditTail.WindowIsNewestMatching | internal/audit/audit.go:497-560 | the result is the newest n matching events: all of them match, increase, and none after the first is missing |
| AuditTail.TailFailsExactlyWhen | internal/audit/audit.go:519-545 | `Tail` fails if and only if some non-empty line does not parse and is not the last of the newest file |
| AuditTail.TornInOlderStays | internal/audit/audit.go:519-545 | once a line that does not parse stands in a file that is not the newest, `Tail` fails whatever is appended |
| AuditTail.CutWriteIsHandled | internal/audit/audit.go:187-223 | wherever the last write is cut, the log gains nothing, one torn line or the event, and the head found at start-up is new if and only if the JSON is complete |
| AuditTail.CutWriteIsReported | internal/audit/audit.go:385-419 | a log cut inside the last JSON is reported at that line |
| AuditTail.TailReturnsCompleteEvents | internal/audit/audit.go:497-560 | wherever the last write is cut, `Tail` reads exactly the complete events |
| AuditTail.AppendAfterCut | internal/audit/audit.go:309-323 | the next append is read back if and only if the cut write left nothing behind |
| AuditTail.GluedLogNeverVerifies | internal/audit/audit.go:385-419 | with a torn line in it no continuation of the log is accepted |
| AuditTears.AppendPieces | internal/audit/audit.go:309-323 | writing any part of a line keeps broken lines broken, and breaks one if and only if it stops inside the JSON or starts behind an unfinished line |
| AuditTears.BrokenIsReported | internal/audit/audit.go:385-419 | files with a broken line anywhere are never accepted |
| AuditFileRuns.ReadyLater | internal/audit/audit.go:309-323 | a file that takes a line leaves later months' files taking one |
| AuditFileRuns.WholeLineAppends | internal/audit/audit.go:309-323 | a whole line at the end of a finished newest file is one more entry, and the file stays ready |
| AuditFileRuns.WrittenInOrder | internal/audit/audit.go:327-356 | from an empty directory, when months never go backwards the sorted files hold all lines in the order they were written |
| AuditFileRuns.FileRunIsRun | internal/audit/audit.go:134-269 | whatever calls follow one another from an empty vault, with months going forward and no torn line, files, store and memory are those of the run model |
| AuditFileRuns.WithoutShortWritesNoTears | internal/audit/audit.go:309-323 | without short writes no line is torn, and the file of every month not yet past takes a line |
| AuditFileRuns.BrokenExactlyWhenTorn | internal/audit/audit.go:309-323 | the files hold a broken line if and only if some call tore one |
| AuditFileRuns.TornRunsNeverVerify | internal/audit/audit.go:385-419 | once a line is torn no further calls make the verifier accept |
| AuditFileRuns.FilesIntactExactlyWhen | internal/audit/audit.go:134-269 | for all calls and all faults, with months going forward: the files verify with nothing acknowledged if and only if no call tore a line and none wrote behind a lost head |
| AuditFileRuns.FailStopFilesAreIntact | internal/audit/audit.go:134-269 | when a lost head ends the process and no line is torn, the files verify with nothing acknowledged, and opening them leaves memory and store at the last head |
| AuditLogger.Vault.LastDiskHead | internal/audit/audit.go:187-223 | newest file first, bottom line first, finds the chain value of the last line that has one in the whole log |
| AuditLogger.Vault.SortedFiles | internal/audit/audit.go:187-199 | the listing in a new array, sorted |
| AuditLogger.Logger.New | internal/audit/audit.go:134-181 | the logger starts, or does not, for every read that may fail, with the files, store and head the file run's opening gives |
| AuditLogger.Logger.Append | internal/audit/audit.go:231-269 | for every fault, the answer, the bytes on disk, the stored head and the head in memory; that this is the file run's call; and that with whole lines it is the run model's append |
| AuditLogger.Logger.AuditLines | internal/audit/audit.go:327-356 | the non-empty lines of the files in name order |
| AuditLogger.Logger.VerifyChain | internal/audit/audit.go:425-430 | the walk over what is on disk |
| AuditLogger.Logger.Reseal | internal/audit/audit.go:436-457 | refuses, changing nothing, without a break or with an unreadable line; otherwise answers with the marker of the reported break, the event of the line now at the end, or the error of the append; it is the file run's call, and with whole lines the run model's reseal |
| AuditLogger.Logger.Tail | internal/audit/audit.go:497-560 | the newest n matching events of the whole log, or an error exactly when `TailFailsExactlyWhen` says |
| AuditPaging.AuditPage | internal/daemon/dispatch_audit_doctor.go:33-71 | a page is contiguous, strictly beyond the cursor, as full as limit and budget allow but never empty while events remain, and `more` says whether any do |
| AuditPaging.PageHoldsAsked | internal/daemon/dispatch_audit_doctor.go:48-71 | a page holds as many events as were asked for, 5000 at most, when they are there and within 768 KiB |
| AuditPaging.FilteredLogGrows | internal/audit/audit.go:497-560 | the filtered log only grows at its end, in index order |
| AuditPaging.CollectBack | cmd/byn/cmd_audit.go:227-258 | the backward loop collects a contiguous suffix of the log held at the first call, until it is complete or long enough |
| AuditPaging.FetchBack | cmd/byn/cmd_audit.go:227-260 | backward paging gives exactly the newest `lines` events held at the first call, although the log grows between calls |
| AuditPaging.FetchSince | cmd/byn/cmd_audit.go:209-226 | forward paging gives every event above the cursor held at the last call, once each |
| AuditPaging.FetchAuditWindow | cmd/byn/cmd_audit.go:197-260 | the three kinds of window a user can ask for, each exactly; an explicit page is as full as limit and budget allow, and holds what was asked for when that fits |
| Text.ClassesAre | cmd/byn/dotenv_annotations.go:39-69 | the characters each trimming and the pattern take for white space, blanks, newlines and hashes |
| DotenvComments.RecogniserIsPattern | cmd/byn/dotenv_annotations.go:37-39 | the recogniser accepts exactly the texts with a prefix of the form white space, an optional `export`, a name, white space, `=` |
| DotenvComments.AssignmentSurvivesSuffix | cmd/byn/dotenv_annotations.go:37-39 | what looks like an assignment still does with more text after it |
| DotenvComments.CommentBlock.Reset | cmd/byn/dotenv_annotations.go:48 | the block is empty again |
| DotenvComments.CommentBlock.Add | cmd/byn/dotenv_annotations.go:51-70 | a comment line changes the block as `BlockAdd` says |
| DotenvComments.CommentBlock.Take | cmd/byn/dotenv_annotations.go:73-80 | the block's annotation is handed out and the block cleared |
| DotenvComments.RenderAnnotationComments | cmd/byn/dotenv_annotations.go:85-103 | appends exactly the comment lines of the annotation |
| DotenvValues.EscapedValueComesBack | cmd/byn/cmd_export.go:200-204 | without quotes and without a backslash before n or t, unescaping undoes escaping |
| DotenvValues.UnescapeUndoesEscapeExactlyWhen | cmd/byn/cmd_import.go:484-489 | and for values without quotes only then |
| DotenvValues.ValueRoundTripsExactlyWhen | cmd/byn/cmd_import.go:469-490 | a value is read back as it was written if and only if it is quoted and holds no quote and no backslash before n or t, or is bare, trimmed and does not start with an apostrophe |
| Dotenv.ParseDotenv | cmd/byn/cmd_import.go:441-498 | the loop over the lines returns what `Parse` says, errors with their line number included |
| Dotenv.ErrorSticks | cmd/byn/cmd_import.go:463-480 | after an error nothing more is read |
| DotenvLines.InlineCommentIsCut | cmd/byn/cmd_import.go:471-476 | after any text, an unquoted value ends at the first blank and hash, and is trimmed |
| DotenvLines.BareValueIsTrimmed | cmd/byn/cmd_import.go:471-476 | after any text, an unquoted value without a comment is what is between its white space |
| DotenvLines.ApostrophesQuote | cmd/byn/cmd_import.go:476-484 | between apostrophes a value stands for itself, whatever follows them |
| DotenvLines.QuotesEscape | cmd/byn/cmd_import.go:476-490 | between quotes a value is read with its escapes for newline, tab and backslash, whatever follows |
| DotenvLines.QuotesWithoutEscapes | cmd/byn/cmd_import.go:476-490 | between quotes text without a backslash stands for itself |
| DotenvLines.ExportIsSkipped | cmd/byn/cmd_import.go:457-460 | `export` and blanks in front of an assignment change nothing |
| DotenvLines.NoEqualsIsReported | cmd/byn/cmd_import.go:461-464 | a line of text without an equals sign is reported by its number, whatever follows |
| DotenvLines.NoKeyIsReported | cmd/byn/cmd_import.go:465-469 | so is a line with nothing before its equals sign |
| DotenvLines.OpenQuoteIsReported | cmd/byn/cmd_import.go:478-482 | so is a quoted value that is not closed |
| DotenvLines.FirstErrorStands | cmd/byn/cmd_import.go:463-482 | once a text is refused, more text changes nothing |
| DotenvLines.CarriageReturnIsNoText | cmd/byn/cmd_import.go:446-448 | a line may end in "\r\n" |
| DotenvLines.LastNewlineIsOptional | cmd/byn/cmd_import.go:446-448 | the last line may lack its newline |
| DotenvBlocks.BlankLineCutsOff | cmd/byn/cmd_import.go:449-452 | an assignment below a blank line gets no annotation from above it |
| DotenvBlocks.AssignmentTakesBlock | cmd/byn/dotenv_annotations.go:73-80 | a block belongs to the assignment below it and to no other |
| DotenvBlocks.BlankAfterHashIsOptional | cmd/byn/dotenv_annotations.go:51-54 | a comment reads alike with and without the blank after its hash |
| DotenvBlocks.SingleHashBelowNoteIsNothing | cmd/byn/dotenv_annotations.go:55-64 | below a note a line with one hash changes nothing |
| DotenvBlocks.DisabledAssignmentEndsBlock | cmd/byn/dotenv_annotations.go:65-68 | a commented-out assignment takes the description above it along |
| Dotenv.RenderDotenvAnnotated | cmd/byn/cmd_export.go:187-210 | the loop over the keys writes what `Render` says |
| DotenvRoundTrip.AnnotationsRoundTrip | cmd/byn/dotenv_annotations.go:41-103 | a written file is read back as the same keys in order with their values, each with exactly its own annotation, normalised, whatever the annotations hold; for well-formed keys and values, and by `FileRoundTripsExactlyWhen` only for them |
| DotenvRoundTrip.OrdinaryDescriptionKept | cmd/byn/dotenv_annotations.go:51-70 | a description without a line that looks like an assignment keeps all its lines, right-trimmed |
| DotenvRoundTrip.AssignLineRoundTripsExactlyWhen | cmd/byn/cmd_import.go:457-494 | a written line adds its pair if and only if key and value are well-formed |
| DotenvRoundTrip.FileRoundTripsExactlyWhen | cmd/byn/cmd_export.go:187-210 | a file, with whatever annotations, is read back as the same pairs with their annotations, normalised, if and only if every key and value is well-formed |
| DotenvRoundTrip.NoDescriptionHoldsAnAssignment | cmd/byn/dotenv_annotations.go:17-22 | for every input, no description that is read holds a line that looks like an assignment |
| DotenvSurvival.ValuesAndNotesSurvive | cmd/byn/dotenv_annotations.go:96-102 | what is read back for a key: its own value, and of its notes those with a word, in order and word for word; single-spaced notes unchanged |
| DotenvSurvival.DescriptionSurvives | cmd/byn/dotenv_annotations.go:85-95 | a description without assignments is read back with its lines right-trimmed and the blank ones around it gone |
| DotenvSurvival.TidyDescriptionSurvives | cmd/byn/dotenv_annotations.go:85-95 | and unchanged when that is so of it already |
| DotenvSurvival.CarriageReturnsAreLineEnds | cmd/byn/dotenv_annotations.go:87 | a description's "\r\n" is a line end |
| DotenvSurvival.DescriptionBelowAssignmentSurvives | cmd/byn/dotenv_annotations.go:65-68 | of a description with lines that look like assignments, what is below the last of them is read back |
| DotenvSurvival.ValueIsWritten | cmd/byn/cmd_export.go:197-208 | a value is written bare if and only if it has no special character, and otherwise between quotes, escaped character by character |
| DotenvSurvival.EntryIsSetOff | cmd/byn/cmd_export.go:189-195 | a file is its keys' parts in order, an annotated one set off by a blank line |
| DotenvSurvival.NoteIsWritten | cmd/byn/dotenv_annotations.go:96-102 | how a note's line is written |
| DotenvSurvival.DescriptionLineIsWritten | cmd/byn/dotenv_annotations.go:86-95 | how a description's line is written |
| ExecFlags.StripExecBoolFlag | cmd/byn/cmd_exec.go:515-542 | drops exactly the items of its flag, copies everything else and all from where the flags end, and says whether there was one |
| ExecFlags.StripWaitApproval | cmd/byn/cmd_exec.go:1124-1163 | the same for `--wait-approval`, with the duration of the last one |
| ExecFlags.StripExecReason | cmd/byn/exec_json.go:213-249 | the same for `--reason` and `--why`, with the text of the last one |
| ExecFlags.StripExecVars | cmd/byn/exec_json.go:261-286 | the same for `--var`, with the names in order |
| ExecFlags.StripInspect | cmd/byn/cmd_exec.go:580-609 | the same for `--inspect` and `--inspect-brk`, with the last target named |
| ExecFlags.StripStep | cmd/byn/cmd_exec.go:528-542 | any pass drops or copies the first item and treats the rest alike |
| ExecFlags.PortIsDigitsToTheEnd | cmd/byn/cmd_exec.go:614-631 | a port is digits to the end, from the start or behind a colon, with no dash in front |
| ExecFlags.LoneWaitIsTwoMinutes | cmd/byn/cmd_exec.go:1139-1148 | `--wait-approval` without a duration waits two minutes |
| ExecPasses.ScanIsItems | cmd/byn/cmd_exec.go:551-571 | one reading from left to right applies the known items in order and sets the unknown ones aside |
| ExecPasses.ItemizeOk | cmd/byn/cmd_exec.go:544-571 | the items and the tail are the command line again, cut where the flags end |
| ExecPasses.PassesOnItems | cmd/byn/cmd_exec.go:63-115 | as long as no flag takes the alias name, passes in turn leave what belongs to none of them and find what one reading finds |
| ExecPasses.PassesLeaveNoMore | cmd/byn/cmd_exec.go:63-115 | passes in turn never leave more than one reading, and less once a flag has taken the alias name |
| ExecPasses.PassesAgreeExactlyWhen | cmd/byn/cmd_exec.go:63-115 | nine passes equal one reading if and only if before no pass the last remaining flag takes the alias name |
| ExecDispatch.FindSeparator | cmd/byn/cmd_exec.go:146-152 | the first separator, or that there is none |
| ExecDispatch.Choose | cmd/byn/cmd_exec.go:121-177 | what the remaining tokens ask for: an alias, a command, or an error naming all unknown flags |
| ExecDispatch.AsksOnce | cmd/byn/cmd_exec.go:121-177 | the tokens leave no choice of what they ask for |
| ExecDispatch.StripAll | cmd/byn/cmd_exec.go:63-115 | the passes in the program's order compute the nine-fold composition |
| ExecDispatch.RunExec | cmd/byn/cmd_exec.go:63-177 | from the argument vector to the flags, the reason from the environment included, and what is to be run, or that the inspector cannot be set up |
| ExecAlias.ReadsAsOneExactlyWhen | cmd/byn/cmd_exec.go:63-115 | nine passes equal one reading if and only if no flag would take the alias name once all flags after it, each stripped earlier, are gone |
| ExecAlias.WithoutAliasReadsAsOne | cmd/byn/cmd_exec.go:63-115 | without an alias name they always do |
| ExecAlias.DirectFormRunsWhatFollows | cmd/byn/cmd_exec.go:63-177 | in direct form the flags are those of one reading, unknown flags are named exactly, and the command run is exactly the tokens after the separator at which the flags end |
| ExecAlias.OnlyDirectFormRunsACommand | cmd/byn/cmd_exec.go:121-177 | read as one, a command is run only from the direct form, and an alias is the one at which the flags end |
| ExecAlias.AliasTakenAsDuration | cmd/byn/cmd_exec.go:1139-1148 | a family of command lines in alias form that the passes read differently |
| ProcTree.DescendantsOf | cmd/byn/cmd_kill.go:152-171 | on any table: root first, then every pid beneath it, once, and nothing else, in non-decreasing distance, each listed for the first entry it is a child of and siblings ascending |
| ProcTree.VisitKids | cmd/byn/cmd_kill.go:160-169 | the inner loop adds exactly the children of one entry that were not listed, and keeps the order |
| ProcTree.WalkIsReachability | cmd/byn/cmd_kill.go:141-171 | a pid is listed if and only if it is root or beneath it |
| ProcTree.NearestFirst | cmd/byn/cmd_kill.go:141 | entries come in non-decreasing distance from root |
| ProcTree.WalksAgree | cmd/byn/cmd_kill.go:152-171 | the table determines the list and its order |
| ProcTree.IsGroupLeader | cmd/byn/cmd_kill.go:181-188 | whether the first row of the pid leads the group of that number |
| ExecJobs.SummarizeExecCommand | cmd/byn/cmd_ps_darwin.go:141-166 | computes the summary `SummaryNamesTheCommand` describes |
| ExecJobs.SummaryNamesTheCommand | cmd/byn/cmd_ps_darwin.go:141-166 | what follows the first separator anywhere, else everything from the first bare token, else all of it |
| ExecJobs.IsBynExecWrapper | cmd/byn/cmd_ps_darwin.go:118-131 | accepts a command line if and only if its first word is byn or ends in /byn and its second is exec, and reports the command a person would recognise |
| ExecJobs.WrappersAreBynExec | cmd/byn/cmd_ps_darwin.go:118-131 | the same of the function the classifier uses |
| ExecJobs.ClassifyExecProcs | cmd/byn/cmd_ps_darwin.go:189-224 | the two loops list the wrappers, then each further job at its first row that is one |
| ExecJobs.ListedExactlyWhen | cmd/byn/cmd_ps_darwin.go:168-224 | a pid is listed if and only if a row of it is a wrapper's, is marked, or heads a job of the account |
| ExecJobs.ListedOnce | cmd/byn/cmd_ps_darwin.go:206-222 | no pid is listed again by the second loop |
| ExecJobs.ListedCommand | cmd/byn/cmd_ps_darwin.go:198-222 | a listed job carries the command its wrapper was asked to run, or its own command line |
| ExecJobs.DaemonsAreSystemPaths | cmd/byn/cmd_ps_darwin.go:235-242 | a system daemon's command lies under one of three directories |
| ExecJobs.UnlistedHeadIsPassedOver | cmd/byn/cmd_ps_darwin.go:235-263 | a head of the account's processes is unlisted only for a system daemon's command |
| ExecJobs.KillAllReachesEveryProcess | cmd/byn/cmd_kill.go:82-94 | in any table without a head passed over for its command and without a circle of the account's processes, every process of the account is in what the walk from some listed job lists |
| ExecJobs.StuckIsMissed | cmd/byn/cmd_ps_darwin.go:189-263 | such heads and circles are beneath no listed job |
| ExecJobs.KillAllReachesExactlyWhen | cmd/byn/cmd_kill.go:82-94 | with unique pids, and other processes apart from the account's jobs, stopping every listed job with all beneath it reaches every process of the account if and only if the table shows no such head and no such circle |
| ExecJobs.KillAllReachesIfStuckAre | cmd/byn/cmd_kill.go:82-94 | in any table at all, every process of the account is reached if and only if such heads and circles are |
| ExecJobs.CycleIsMissed | cmd/byn/cmd_ps_darwin.go:255-263 | two processes that are each other's parent are beneath no job |
| ExecJobs.DaemonHeadIsMissed | cmd/byn/cmd_ps_darwin.go:235-263 | a process beneath an unlisted daemon is beneath no job |
| Wrap.WrapTo | cmd/byn/approve_render.go:370-394 | text without words or room is left alone; otherwise the greedy lines, all but the first indented |
| Wrap.GreedyWraps | cmd/byn/approve_render.go:376-389 | greedy lines hold the words in order, each line within the room or a single word |
| Wrap.GreedyFills | cmd/byn/approve_render.go:376-389 | greedy moves on only when the next word does not fit |
| Wrap.FullIsFewest | cmd/byn/approve_render.go:376-389 | lines filled like that are no more than any wrapping needs, even of more words |
| Wrap.GreedyIsOptimal | cmd/byn/approve_render.go:376-389 | no wrapping of the words uses fewer lines |
| Wrap.WrappedIsOptimal | cmd/byn/approve_render.go:370-394 | what is returned is such a wrapping of the words, on as few lines as any |
| Wrap.WrappedFits | cmd/byn/approve_render.go:389-393 | each later line starts with the indent, and no line is wider than the column but one of a single word |
| Wrap.WrappingKeepsTheWords | cmd/byn/approve_render.go:370-394 | the words read off the returned lines are those of the text |

## Left out

- Cryptography, hex and JSON: MACs are terms, equal only if seed, previous MAC and event are, although the program feeds previous MAC and event to the MAC as one run of bytes; hex is canonical. JSON is a pair of functions that are inverse on events, with no proper prefix of a form parsing and nothing parsing that is pieced together from two or more pieces of forms.
- Errors of reading files and of listing the directory are modelled at start-up only; verifying, resealing and `Tail` can always read here.
- The mutex: each logger operation is one step. Two loggers on one directory are not modelled.
- The clock and the month's file name are parameters; the name never sorts before an existing one where the log's order depends on it.
- Event filters are an arbitrary predicate; their string comparison is not modelled.
- A sync that fails is a line on disk without its head stored, like a failed store update; lines lost from the disk after a failed sync are not modelled.
- AuditFiles.SinkLeft: is the inner loop of `sortStrings`, set apart as a method; likewise `AuditPaging.PageForward`, `AuditPaging.PageBackward`, `ExecDispatch.StripFirstFive` and `ProcTree.VisitKids` are parts of one function.
- AuditFileRuns.FileRunIsRun: assumes that the month never goes backwards; a clock set back across the start of a month is not modelled.
- AuditRuns.FailStopRunsAreIntact: is about lines written whole; cut writes are in `AuditFileRuns`.
- AuditReseal.OneResealPerBreak: assumes distinct recorded heads at the breaks and a logger that holds the last head; `ResealTerminatesExactlyWhen` drops the first.
- Dotenv.ParseDotenv: does not model the scanner's limit of 4 MiB on a line, past which the program reports an error.
- JSON and YAML import, and the de-duplication of notes on import.
- Text is a sequence of Unicode characters, not bytes; invalid UTF-8 is not modelled. Widths are numbers of characters.
- `time.ParseDuration` is a parameter of the exec model. Choosing a free inspector port works or fails by a parameter; everything after the command is chosen is left out.
- The parsing of `ps` output into rows and the reading of process environments: rows and marked pids are given. The classifier and the walk are taken to see one snapshot.
- ExecJobs.KillAllReachesExactlyWhen: assumes unique pids, and that a process outside the account that is no wrapper is unmarked and was started by such a process or one without a row; `KillAllReachesIfStuckAre` assumes neither.
- ExecJobs.KillAllReachesEveryProcess: says what is listed for signalling; delivery, waiting and escalation are not modelled.
- `sort.Ints` is an insertion sort; `strings.Fields`, `Join`, `Trim` and the like are defined in `Text.dfy`.
- Sockets, the daemon's handlers beyond one page of events, the privileged helper, terminal rendering, set-up and migration.
