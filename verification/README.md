# A verified model of PartyOps' stateful protocols

PartyOps is an office system that runs on one host, with agents on other devices of the local
network. This project models the parts of it whose guarantees are global, and proves them in
Dafny: `dafny verify dfyconfig.toml` checks everything.

| file | what it models |
|---|---|
| `DatabaseGate`, `GateGuarantees`, `Admission` | the counted activity region of ORM sessions, the gate a maintainer closes and drains, and the re-entrant write lock, as interleaved atomic steps with a program counter per thread; a class with the source's fields refines the steps |
| `PortableNames`, `BackupArchive`, `BackupExtract`, `BackupRoundTrip`, `RestoreSwap`, `Retention` | backups: portable names, the strict acceptor, the extractor, the writer, the three-slot swap with its rollback handler, daily and weekly retention |
| `Base64Url`, `LocalTickets` | signed one-time tickets and the nonce table that is itself purged |
| `ProtectedSpans`, `SpanLanguage`, `Punctuation`, `PunctuationText`, `PunctuationKeys` | the punctuation rewrite with sheltered spans, and the language of the pattern that finds them |
| `DocxSections`, `DocxFooters` | page setup and page-number footers, against the formatter's own diagnosis |
| `Chunks`, `DownloadTransfer`, `UploadTransfer` | chunked transfers, resumed on both sides |
| `PackVerification`, `PackActivation` | the verification cache of model packs, their activation table, the staging of their files |
| `Wheelhouse` | the dependency closure of an offline package directory |
| `LoginThrottle`, `Notifications` | the bounded table of failed logins; the convergence of deadline notices |
| `Wrappers`, `Decimal`, `FiniteSets` | option, result and byte types, decimal numerals, cardinalities |

Where the source changes state in place the model has a class with the corresponding fields, whose methods
are proved equal to functions on values; the properties are lemmas about those functions. Loops of
the source are loops.

What the proofs found about the code, each stated as a lemma:

- A restore that fails while it deletes old previous copies, while it moves the live ones aside, or after
  the previous database is deleted can lose what was live (`RestoreSwap.RollbackWindow`).
- A maintenance body that leaves a session of its own open lets another body run beside it
  (`GateGuarantees.UntidyBodyBreaksExclusion`).
- A session that is flushed on one thread and closed on another keeps the write lock for good, and no other
  thread ever writes again (`GateGuarantees.LostLockStays`, reached by `LostLockIsReached`). `get_session`
  leaves the closing thread to the web framework.
- Only a negative daily retention setting makes the policy delete more when it is applied again
  (`Retention.IdempotentIff`).
- The punctuation rewrite damages exactly the texts that spell out the shelter key of one of their own
  spans, outside the spans or in an earlier one (`PunctuationKeys.ComputedIff`).
- The formatter reports missing page numbers in its own output when the footers it kept have
  another part name, or spell the field in small letters (`DocxFooters.PageFoundIff`).
- Footer references that lead nowhere are mended only by chance: when one has a free id of the form the
  formatter uses, or leads to a missing part that it makes. Otherwise each run adds an unused
  relationship (`DocxFooters.NeverMendedIff`).
- A download part file longer than the source is never repaired.
- A dependency constraint recorded after its package's last round is not checked.
- `record_failure` raises `KeyError` for a new account and address while the table is full of entries that
  are locked or have failed twice (`LoginThrottle.FullOfRepeats`; exactly when, `ReadsBackIff`). The route
  itself can fill the table so (`KeyErrorIsReached`).
- A deadline notice that was read is replaced by the second reconcile, not by the first.
- A model file whose content or readability changes under the same size and time stays verified.

## Model

| member | source | states |
|---|---|---|
| `DatabaseGate.InvAlways` | backend/app/database.py:53-652 | In every interleaving of the atomic sections, whichever threads begin and end a session, the invariant is kept: the counter is the marked sessions plus those that popped the mark and have not decremented; the lock depth is what its owner acquired and nobody released, refused releases included; no other thread has anything unreleased |
| `DatabaseGate.CountDecrement` | backend/app/database.py:74-82 | A decrement always finds a counted session, so the counter goes down by one and the clamp at zero never takes effect |
| `GateGuarantees.BodyRunsUncounted` | backend/app/database.py:84-119 | While a maintenance body runs no session is marked active, so every marked session is the maintainer's kind and nothing is between its mark and its decrement |
| `GateGuarantees.BodyEndsOnlyByItself` | backend/app/database.py:84-119 | Whatever the other threads do, a running body keeps running and the gate stays closed until its own thread ends it |
| `GateGuarantees.ExclusiveMaintenance` | backend/app/database.py:53-119 | Over any run after a body has started in which its thread does not end it, no session is marked active and none can become so |
| `GateGuarantees.TidyBodiesAreAlone` | backend/app/backups.py:566-571 | If no body ends while a session its thread has marked is still open, then in every reachable state a running body is beside marked sessions of its own thread only |
| `GateGuarantees.UntidyBodyBreaksExclusion` | backend/app/database.py:62-66 | A session marked as the maintainer's is not counted: a body that ends while its thread still has one can be followed at once by another thread's body beside it |
| `GateGuarantees.UntidyBodyIsReached` | backend/app/database.py:59-119 | Such a body is reached from the initial state, for any two threads: it opens one session and ends without closing it |
| `GateGuarantees.WaitCycleIffTrapped` | backend/app/database.py:98-112 | Whichever thread is going to end each session: threads wait in a cycle exactly when a draining thread is to end a counted session, or holds the write lock that such a thread waits for |
| `GateGuarantees.NoWaitCycle` | backend/app/backups.py:594-594 | Whichever thread is going to end each session: if every drain starts without the lock and without a counted session to end, no reachable state has a wait cycle, and a waiting drain waits for a thread that can move or whose lock owner can. Waiting for the lock itself may be in vain after a refused release (`LostLockStays`), but never is where each session keeps its thread (`ConfinedWaitsEnd`) |
| `GateGuarantees.CanMoveActs` | backend/app/database.py:53-119 | A thread that is not draining and not blocked on the lock has an enabled step |
| `GateGuarantees.FailedDrainRestoresGate` | backend/app/database.py:84-119 | A refused call changes nothing; a drain that times out after any steps of the other threads leaves gate, owner and body as it found them |
| `GateGuarantees.FlagMeansOwner` | backend/app/database.py:607-652 | In every reachable state the thread that acquired for a session with the write flag owns the lock, and the session is marked, or its transaction is being ended |
| `GateGuarantees.ReleaseSucceedsIff` | backend/app/database.py:645-652 | A release for a session succeeds exactly when the thread that ends the outermost transaction is the one that acquired; it then takes back one hold and frees the lock with the last. Otherwise the lock stays as it is while the flag is gone |
| `GateGuarantees.BlockReleaseIsTheOwners` | backend/app/backups.py:594-594 | A `with write_lock` block is always left by the owner, which frees the lock with its last hold |
| `GateGuarantees.LostLockStays` | backend/app/database.py:645-652 | After one refused release the acquiring thread owns the lock in every continuation, and no other thread ever acquires it |
| `GateGuarantees.LostLockIsReached` | backend/app/database.py:607-664 | From the initial state, for any two threads: a session flushed by one and closed by the other leaves the lock held with no session marked or flagged and nothing running |
| `GateGuarantees.NothingLostIff` | backend/app/database.py:607-652 | Over every run no release is refused, nor about to be, exactly when every session with the write flag has its transaction ended by the thread that acquired |
| `GateGuarantees.ConfinedFlags` | backend/app/database.py:607-652 | Hypothesis: each session is handled by one thread only. Then no release is refused, and a write flag means that the session's own thread owns the lock |
| `GateGuarantees.ReleaseIsTheOwners` | backend/app/database.py:645-652 | Under the same hypothesis every release is made by the owner, and frees the lock exactly when it undoes that thread's last acquisition |
| `GateGuarantees.ConfinedWaitsEnd` | backend/app/database.py:607-652 | Under the same hypothesis, when drains start as for `NoWaitCycle`: whoever waits for the lock waits for a thread that can move and holds nothing but flags of its own sessions, blocks it is in and releases that will succeed |
| `Admission.MarksAreLetIn` | backend/app/database.py:53-82 | Over every run the marked sessions are exactly those that asked, came to a gate that was open or their own thread's, and have not ended since; each is marked as the gate was at that moment, counted or the maintainer's. Who asked and what the gate was is read off the actions, not off the marks |
| `Admission.WorkingWasLetIn` | backend/app/database.py:59-72 | Whoever comes back from a request without a refusal, also with a session that was marked before, works with a session that was let in, until it ends; whoever asked to write has the write flag, and the thread that acquired it owns the lock |
| `Admission.NobodyBesideTheBody` | backend/app/database.py:84-119 | While a maintenance body runs every session at work was let in behind a closed gate by the thread that had closed it; where bodies are tidy that is the thread of the body |
| `DatabaseGate.DatabaseRuntime.EnterGate` | backend/app/database.py:59-72 | At an open gate the counter goes up by one and the session is marked active; the maintainer's session is only marked; a refusal changes nothing. A writer that is let in goes on to the lock. This is the model step |
| `DatabaseGate.DatabaseRuntime.DecrementActivity` | backend/app/database.py:79-82 | The decrement section is the model step |
| `DatabaseGate.DatabaseRuntime.CloseGate` | backend/app/database.py:84-97 | Closing the gate is the model step, with the refusal of a second maintainer |
| `DatabaseGate.DatabaseRuntime.AcquireWriteLock` | backend/app/database.py:607-643 | Acquisition and flag are two steps of the model in this order |
| `DatabaseGate.DatabaseRuntime.ReleaseWriteLock` | backend/app/database.py:645-652 | The release after the popped flag, by whichever thread ends the transaction, is the model step; it is refused, and leaves the lock, exactly when that thread is not the owner |
| `RestoreSwap.DataDirectory.Swap` | backend/app/backups.py:594-640 | Without a failure the live triple is the extracted one and no previous copy is left; with a failure, whatever partial copy it leaves, the live triple is the original one exactly when `Survives` holds of the failing step |
| `RestoreSwap.DataDirectory.RollBack` | backend/app/backups.py:627-639 | The handler makes the previous copies live, originally absent ones absent, and leaves no previous copy |
| `RestoreSwap.RollbackWindow` | backend/app/backups.py:597-640 | For a running installation the rollback is true exactly from the copy of the database to the deletion of its previous copy |
| `PortableNames.PortableStaysBelow` | backend/app/backups.py:48-78 | A portable member name resolves strictly below any root, segment for segment |
| `PortableNames.JoinSegments` | backend/app/backups.py:48-60 | Splitting a name at slashes and joining it again gives it back |
| `PortableNames.PortableUnder` | backend/app/backups.py:48-78 | A path is portable below a portable directory exactly when it is portable itself |
| `PortableNames.PortableMeans` | backend/app/backups.py:48-78 | The test passes exactly the names without a backslash or a slash in front, whose components are none of them empty, "." or "..", end in neither space nor dot, have no colon or control character, and do not read, up to the first dot and with case ignored, as one of the 22 Windows device names |
| `PortableNames.SegmentsAreComponents` | backend/app/backups.py:51-54 | The segments are exactly the parts of the name between slashes and ends |
| `PortableNames.CaseIsIgnored` | backend/app/backups.py:76-78 | Names that differ only in characters that fold alike have one collision key |
| `BackupArchive.ValidatedInfos` | backend/app/backups.py:119-147 | The member loop accepts exactly the archives within the limits whose names are portable, pairwise different when case is ignored, unencrypted regular members or directories, stored or deflated, and no bombs |
| `BackupArchive.InfosMean` | backend/app/backups.py:119-147 | The same in plain numbers: modes 0, 0x8000 and 0x4000, methods 0 and 8, and sizes up to 100 MiB or up to a thousandfold of what is stored |
| `BackupArchive.AfterIff` | backend/app/backups.py:452-458 | The comparison of schema versions is the order of strings by code point: greater at the first difference, or longer |
| `BackupArchive.VerifyBackup` | backend/app/backups.py:417-547 | The verifier returns the manifest of exactly the acceptable archives; otherwise it reports the stage that fails first: member checks, format, format or schema too new, database not listed, unlisted files or corrupt database exactly when the stages before pass and that one does not; a hash mismatch or an invalid manifest only where a listed item fails or the manifest and its header cannot be read. When everything else passes, a schema version of four digits is refused exactly when it is above 24 |
| `BackupArchive.AcceptedIsCollisionFree` | backend/app/backups.py:119-147 | No two members of an accepted archive coincide when case is ignored |
| `BackupArchive.AcceptedIsListed` | backend/app/backups.py:465-518 | Every file member of an accepted archive is the manifest, the configuration, or a listed path with exactly the listed size and hash |
| `BackupArchive.AcceptedListsOnce` | backend/app/backups.py:465-475 | The manifest of an accepted archive lists no path twice |
| `BackupArchive.AcceptedStaysBelow` | backend/app/backups.py:48-78 | Every accepted member resolves below the root; the later tests for a leading slash and for ".." never decide |
| `BackupArchive.CheckFiles` | backend/app/backups.py:465-510 | The loop over the listed files accepts exactly the lists whose items name readable members with the listed size and hash |
| `BackupExtract.SafeExtract` | backend/app/backups.py:150-165 | Extraction succeeds exactly when the members pass and no path is needed both as file and directory; then each file is at its own place with its own content, everything in front of a slash of a member's name is a directory, and there is nothing else |
| `BackupExtract.ExtendExtraction` | backend/app/backups.py:150-165 | Writing one more member keeps every file written before |
| `BackupRoundTrip.CreateArchive` | backend/app/backups.py:245-311 | The archive has the snapshot and the configuration under their names, and below `attachments/` exactly the regular files, no links, with no path component `.incoming`, below `archives/` exactly the regular files, no links, each under its path with its content |
| `BackupRoundTrip.BuiltIsAcceptable` | backend/app/backups.py:235-317 | The archive of any store with portable, case-insensitively distinct paths within the limits is accepted by the verifier |
| `BackupRoundTrip.BuiltIsAcceptableIff` | backend/app/backups.py:417-547 | And no other archive the writer makes is: it is accepted exactly when the kept paths are portable and distinct when case is ignored, the snapshot is intact and of a known schema, and the members are within the limits |
| `BackupRoundTrip.NamesCollideNowhere` | backend/app/backups.py:262-311 | No two members written collide when case is ignored, across the three directories and the fixed names |
| `BackupRoundTrip.BuiltIsExtractable` | backend/app/backups.py:150-165 | On a file system that minds case or folds it, no member written is a directory above another one, so the archive of a store that is a tree there is extractable |
| `BackupRoundTrip.StagedIsSource` | backend/app/backups.py:576-593 | What extraction leaves in the staging directory is the snapshot and exactly the kept attachments and archives, each found under its path |
| `BackupRoundTrip.BackupThenRestore` | backend/app/backups.py:550-640 | Create, verify, extract and swap, on a file system that minds case or folds it: every stage accepts what the one before made, the live database is the snapshot, and the live attachments and archives are exactly the files with a path and a kind that are backed up, each with its content |
| `Retention.KeepIds` | backend/app/backups.py:656-672 | The kept ids are exactly those of the newest `daily` backups and of the newest of each of the first `weekly` ISO weeks |
| `Retention.AtMostDailyPlusWeekly` | backend/app/backups.py:656-679 | At most `daily` plus `weekly` automatic backups stay |
| `Retention.DeletedIsCovered` | backend/app/backups.py:656-679 | A deleted backup is not among the newest `daily` and either has a newer kept one in its week or lies outside the first `weekly` weeks |
| `Retention.RetentionIdempotent` | backend/app/backups.py:656-679 | Applying retention twice is applying it once, for every list, every weekly setting and every daily setting from zero on |
| `Retention.IdempotentIff` | backend/app/backups.py:656-679 | For every weekly setting: applying the policy twice is applying it once for all lists exactly when the daily setting is not negative |
| `Retention.NegativeDailyIsNotIdempotent` | backend/app/backups.py:663-664 | With a negative daily setting, which the slice accepts, and any weekly one, a list of one week that is two longer than the bound keeps two backups the first time and at most one the second |
| `Retention.Catalog.ApplyRetention` | backend/app/backups.py:643-679 | Deleted rows go exactly when their purge time has come; rows that are manual or incomplete stay; of the listed automatic rows those stay that are among the newest `daily`, or the first of their week with fewer than `weekly` weeks before them. The files of the rows that go, and no others, go with them |
| `Retention.SecondApplicationKeeps` | backend/app/backups.py:643-679 | A second application to what the first left removes only rows that have expired since, whatever order the query gives rows created at one time |
| `Retention.AtMostLeft` | backend/app/backups.py:643-679 | It leaves at most `daily` plus `weekly` automatic rows |
| `Base64Url.DecodeEncode` | backend/app/official_format_service.py:52-57 | Stripping and restoring the padding is exact for every byte string (section 5 of RFC 4648), and the encoding has no dot |
| `Base64Url.EncodedIsBarePlusPadding` | backend/app/official_format_service.py:52-53 | The padding that is stripped is what `-len % 4` of the rest says |
| `Base64Url.ScanEncoded` | backend/app/official_format_service.py:56-57 | The lenient decoder reads a well-formed encoding back |
| `Base64Url.SymbolsAreTheAlphabet` | backend/app/official_format_service.py:52-53 | The symbols are the URL-safe alphabet (table 2 of RFC 4648) |
| `Base64Url.GroupBits` | backend/app/official_format_service.py:52-53 | The four symbols of a group stand for the 24 bits of its three bytes, first byte first (section 4 of RFC 4648) |
| `Base64Url.StrayIsSkipped` | backend/app/official_format_service.py:56-57 | A character of neither alphabet is passed over wherever it stands |
| `LocalTickets.IssuedIsAccepted` | backend/app/official_format_service.py:79-150 | A ticket is accepted with its own claims exactly while the truncated clock is before the truncated expiry and the page has the origin it was issued for |
| `LocalTickets.AcceptedIsSigned` | backend/app/official_format_service.py:113-150 | Any accepted text is one dot between an encoding and the signature of exactly that encoding, with unexpired claims for this origin |
| `LocalTickets.SignedIsAccepted` | backend/app/official_format_service.py:113-150 | And every such text is: signed over its encoding, with the purpose, a nonce of 20 to 64 characters, unexpired, for this origin |
| `LocalTickets.OneSessionPerNonce` | backend/app/official_format_service.py:341-351 | Over a whole run with purges no nonce opens two sessions, provided issuer lead plus delay is at most max(idle timeout, 120) - 120 seconds |
| `LocalTickets.ReplayBeyondTheHorizon` | backend/app/official_format_service.py:532-547 | The bound is exact: with any larger sum there is a run in which one nonce opens two sessions |
| `LocalTickets.CheckedWithinHorizon` | backend/app/official_format_service.py:132-132 | An accepted ticket is checked before the horizon of any earlier use of its nonce has passed |
| `LocalTickets.FormatService.OpenSession` | backend/app/official_format_service.py:341-352 | The locked check and insert is the model step, and a session is opened exactly when the nonce was not remembered |
| `LocalTickets.FormatService.CleanUpOnce` | backend/app/official_format_service.py:532-547 | One turn of the clean-up keeps exactly the nonces younger than 120 seconds or than the idle timeout, and the sessions active within the idle timeout or within 30 seconds |
| `ProtectedSpans.SameMatch` | backend/app/official_format.py:260-264 | The span matcher finds the same span in two texts that differ only in the width of marks |
| `SpanLanguage.MatchIsTheFirstsLongest` | backend/app/official_format.py:260-264 | At every position of every text the matcher finds the longest word of the first alternative that has one there, and nothing exactly when none has; the four languages are read off the pattern in plain characters |
| `PunctuationText.MaskMeans` | backend/app/official_format.py:260-264 | A position is protected exactly when it lies in a span that the search from the left finds |
| `Punctuation.StagesAreOneStep` | backend/app/official_format.py:266-272 | The nine ordered substitutions change each position to what its neighbours in the original text ask for |
| `Punctuation.RewrittenReads` | backend/app/official_format.py:253-272 | In plain characters and original neighbours: outside the spans a quotation mark after a CJK character opens before another one and closes before a wide mark or at the end, parentheses likewise, the five other marks widen between closing and opening characters or at the end, and every other character stays |
| `Punctuation.NothingFiresTwice` | backend/app/official_format.py:266-272 | No rule applies anywhere in a rewritten text |
| `Punctuation.RewrittenIsStable` | backend/app/official_format.py:266-272 | Rewriting a rewritten text changes nothing |
| `PunctuationText.SubstituteAllSheltered` | backend/app/official_format.py:253-272 | Substituting over the text with spans replaced by keys is rewriting the positions outside the spans |
| `PunctuationText.RestoresAll` | backend/app/official_format.py:274-275 | Replacing the keys, in order, puts every span back verbatim |
| `PunctuationText.Normalize` | backend/app/official_format.py:250-276 | The count returned is the number of positions the rewriting changes; for texts free of the key characters the text returned is the rewriting and reads at each position as `RewrittenReads` says |
| `PunctuationText.NormalizedIsStable` | backend/app/official_format.py:250-276 | Length stays, the spans are found again and are verbatim, a second call changes nothing, and a position changes only to the wide form of its mark |
| `PunctuationText.NormalizeTwice` | backend/app/official_format.py:250-276 | A second call on the result returns the same text and 0 changes |
| `PunctuationText.SpelledKeyIsReplaced` | backend/app/official_format.py:255-258 | A text that spells out the key of its own span is an example where this fails: the spelled key is replaced too |
| `PunctuationKeys.RestoresIff` | backend/app/official_format.py:253-275 | Sheltering a text and putting the spans back gives the text exactly when it does not spell out the key of one of its spans, outside the spans or in an earlier span |
| `PunctuationKeys.ComputedIff` | backend/app/official_format.py:250-276 | For every text: what the source computes is the rewriting exactly under that condition, and then reads at each position as `RewrittenReads` says |
| `PunctuationKeys.ComputedTwice` | backend/app/official_format.py:250-276 | Under that condition computing twice is computing once |
| `DocxSections.ConfiguredIsRight` | backend/app/official_format.py:385-403 | A configured section has the page size, margins and grid the diagnosis asks for, and its other children unchanged |
| `DocxSections.ConfiguredValues` | backend/app/official_format.py:385-403 | It has the width 11906 and height 16838, the margins 2098, 1984, 1587 and 1474, header 851, footer 1417, no gutter, and the grid of pitch 560 and spacing -848 |
| `DocxSections.OtherAttributesStay` | backend/app/official_format.py:385-403 | Every other attribute keeps its value |
| `DocxSections.DiagnoseSections` | backend/app/official_format.py:653-684 | The section checks find nothing exactly when there is a section and every one has that size, those margins and that grid |
| `DocxFooters.FreshIndex` | backend/app/official_format.py:518-526 | The index found is the first one whose relationship id is not taken |
| `DocxFooters.NewIdsAreFresh` | backend/app/official_format.py:508-570 | Relationships are kept, at most one per kind is added, and its id differs from every other |
| `DocxFooters.SectionsGetBothKinds` | backend/app/official_format.py:582-595 | Every section ends with default and even footer references, keeps its own children, and each reference added resolves to a part of the output that has a page number |
| `DocxFooters.OtherPartsStay` | backend/app/official_format.py:536-560 | A part no reference leads to is kept as it is; every part changed has a page number |
| `DocxFooters.NumberedOnItsSide` | backend/app/official_format.py:536-560 | When both kinds have a footer: a part that a reference leads to and that has no number gets one on the side of its kind, the default kind first; one that has a number is only written back |
| `DocxFooters.WhatIsAdded` | backend/app/official_format.py:562-581 | For each kind without a usable footer exactly one relationship with the first free id, to `footer-partyops-odd.xml` or `-even.xml`, and one content type override are added |
| `DocxFooters.SecondTimeAddsNothing` | backend/app/official_format.py:501-595 | Formatting the result again adds no reference, relationship or part, when each kind has a usable footer or a section without one |
| `DocxFooters.SettledIff` | backend/app/official_format.py:536-571 | Where every section's reference of a kind leads nowhere, a call keeps the references and adds a relationship; afterwards one of them leads to a footer exactly when it has the id of a relationship the call makes, or already led to the missing part the call makes |
| `DocxFooters.MendedResolves` | backend/app/official_format.py:536-571 | With unique ids such a reference has a relationship to a part with a page number afterwards exactly when it is mended in one of these two ways |
| `DocxFooters.NeverMendedIff` | backend/app/official_format.py:518-571 | However often the document is formatted the kind stays without a footer exactly when no reference has a free id of the form the formatter uses, and none leads to a missing part that the first call makes |
| `DocxFooters.StaysBrokenAgain` | backend/app/official_format.py:518-571 | Then n calls add n relationships or more, none of which a reference of the kind uses |
| `DocxFooters.MendedByChance` | backend/app/official_format.py:518-571 | A document whose dangling reference has the very id the first relationship gets, and so is mended |
| `DocxFooters.PageFoundIff` | backend/app/official_format.py:736-741 | The diagnosis of the formatter's own output finds the page numbers exactly when there is a section and a footer had to be made, or a part of the document with the usual name holds the field in capitals: as it stands if no reference leads to it, else because it lacks the field or is written back so |
| `DocxFooters.KeptButNotFound` | backend/app/official_format.py:536-560 | A document whose only footer has an unusual part name, or the field in small letters: it is kept with its page number, which is reported as missing |
| `DocxFooters.Formatter.Format` | backend/app/official_format.py:767-823 | After formatting every section has the width 11906 and height 16838, the margins and the grid, and a reference of the type `default` (or of none) and one of the type `even` |
| `Chunks.AcceptedGeometry` | backend/app/client_agent.py:146-176 | Accepted are exactly the numbers that the status names, or else the command, whose chunks of at most 16 MiB just cover a file of at most 20 GiB |
| `Chunks.RangesPartition` | backend/app/client_agent.py:1589-1592 | The chunk ranges of an accepted geometry partition the file |
| `DownloadTransfer.PartIsAlwaysPrefix` | backend/app/client_agent.py:1588-1625 | From any number of attempts, interrupted, refused or killed in a write, the part file is a prefix of the source when each reply carries the true chunk hash |
| `DownloadTransfer.ResumedDownloadIsTheSource` | backend/app/client_agent.py:1568-1639 | After any such attempts one uninterrupted attempt ends with the part file equal to the source |
| `DownloadTransfer.FetchedIsTheSource` | backend/app/client_agent.py:1626-1635 | With a known whole-file hash nothing but the source is ever accepted, whatever the host sends |
| `DownloadTransfer.FirstReply` | backend/app/client_agent.py:1590-1625 | The first reply asked for is refused, and leaves the part file as it is, exactly when it is longer than a chunk or its hash is not the one that came with it; a process that dies in the write leaves what was written |
| `DownloadTransfer.TwoAttemptsRepair` | backend/app/client_agent.py:1626-1635 | Two uninterrupted attempts repair any leftover part file exactly when it is not longer than the source |
| `DownloadTransfer.TooLongIsStuck` | backend/app/client_agent.py:1590-1591 | A part file longer than the source is never repaired: every attempt leaves it and reports the size |
| `DownloadTransfer.NoHashesNoGuarantee` | backend/app/client_agent.py:1618-1625 | Without hashes a short reply leaves a gap and a file of the right size with other content is accepted |
| `DownloadTransfer.Receiver.Download` | backend/app/client_agent.py:1568-1639 | A saved file has the expected size and hash and replaces no file; a wrong whole-file hash removes the part file |
| `DownloadTransfer.Receiver.FreeName` | backend/app/client_agent.py:1552-1565 | The name found is the first free one of ten thousand, and none is found exactly when all are taken |
| `UploadTransfer.StoreAlwaysHolds` | backend/app/routers/fleet.py:2638-2755 | Over any run of chunk requests from a stable source, out of order, repeated or cut short by a crash, every chunk row is backed by the source's bytes on disk |
| `UploadTransfer.FullStoreIsTheSource` | backend/app/routers/fleet.py:2711-2748 | As many rows as chunks means the host's part file is the source |
| `UploadTransfer.ReceiveKeepsHolding` | backend/app/routers/fleet.py:2665-2709 | A request from the source is never refused, keeps the store, and an answered one adds its row |
| `UploadTransfer.ReceiveMeans` | backend/app/routers/fleet.py:2665-2748 | Which requests are refused, in the order of the source, for more than 8 MiB, another length than the chunk has, or another hash; what is stored, and that a complete file is kept with its hash exactly when its size and hash are right |
| `UploadTransfer.Host.PutChunk` | backend/app/routers/fleet.py:2638-2755 | The request handler does exactly the specified step |
| `UploadTransfer.Host.Upload` | backend/app/client_agent.py:1410-1460 | The agent's loop keeps the store however its requests fare, and completes it when all are answered |
| `UploadTransfer.Host.Finalize` | backend/app/routers/fleet.py:2791-2845 | Finalizing delivers the part file exactly when size, rows and hash are complete |
| `UploadTransfer.ServedIsWhole` | backend/app/routers/fleet.py:2847-2890 | Once the part file is the source the host serves every chunk whole, with its hash |
| `UploadTransfer.Relay` | backend/app/client_agent.py:1410-1639 | Upload, finalize and download, each resumed after any earlier attempts, save exactly the source on the other device |
| `PackVerification.CachedIsIntact` | backend/app/model_packs.py:529-570 | With an attested cache entry, or none, the verdict is that of hashing every file afresh, and the entry left is attested again |
| `PackVerification.SameFingerprint` | backend/app/model_packs.py:548-555 | Equal sorted fingerprints of one manifest are equal line by line |
| `PackVerification.RunHasHistory` | backend/app/model_packs.py:48-51 | A run in which no path shows one size and time with two contents is all the verifier assumes of the disk |
| `PackVerification.UnnoticedChange` | backend/app/model_packs.py:553-555 | The assumption is needed: a change of content or readability under the same size and time is not noticed |
| `PackVerification.Verifier.Verify` | backend/app/model_packs.py:529-570 | In every state of such a run the verdict is positive exactly when the root is there and every listed member is a file below it with the listed size and hash |
| `PackActivation.AlwaysAgrees` | backend/app/model_packs.py:595-663 | Over any run of activations, deactivations, installs and uninstalls a pack is active only if in use, and what is in use exists, has the capability and is active or corrupt |
| `PackActivation.MovedAgreesIff` | backend/app/model_packs.py:616-645 | Moving a capability to another pack keeps the agreement exactly when the former pack is not active if nothing else uses it, and not reset if something does |
| `PackActivation.Tables.ActivatePack` | backend/app/model_packs.py:595-645 | A pack is activated exactly when it is there, has the capability, needs no newer runtime and passes the check; then the capability points at it. A failed check marks it corrupt, any other refusal changes nothing. The updates are the specified step and keep the agreement |
| `PackActivation.Tables.DeactivateCapability` | backend/app/model_packs.py:648-663 | The capability's row goes, and only the pack it pointed at is reset, exactly when no other capability uses it; the agreement is kept |
| `PackActivation.RollBackUndoes` | backend/app/model_packs.py:479-490 | Taking the recorded moves back restores every file, however many moves were made |
| `PackActivation.PackFiles.Stage` | backend/app/model_packs.py:443-476 | A failing staging leaves every file where it was; otherwise what was there is staged |
| `Wheelhouse.ProcessLearns` | scripts/validate-uos-wheelhouse.py:183-201 | Every round learns a name or an extra from a fixed finite set, or shortens the queue: the worklist terminates |
| `Wheelhouse.PassingIsClosed` | scripts/validate-uos-wheelhouse.py:162-201 | When nothing is reported: every name has its wheel; every root whose marker is absent or true at "" has an allowed version and its extras; and every dependency whose marker is absent, or true at one of its name's final extras, or true at "" where there are none, is there with its extras |
| `Wheelhouse.CompletePasses` | scripts/validate-uos-wheelhouse.py:162-201 | No false alarm: a wheelhouse that some set of names and extras shows complete passes, and the closure found lies within that set |
| `Wheelhouse.CompleteIffPassesAndHolds` | scripts/validate-uos-wheelhouse.py:187-201 | For markers that more extras never switch off, complete means exactly: passes, and the constraints recorded after a name's last round hold as well |
| `Wheelhouse.PassFindsLeast` | scripts/validate-uos-wheelhouse.py:162-201 | For such markers a pass finds the least set of names and extras that takes in the roots and all dependencies |
| `Wheelhouse.PassIsCompleteIff` | scripts/validate-uos-wheelhouse.py:187-201 | What a pass is worth, on the wheelhouse alone: one that passes is complete exactly when every constraint in that least set is satisfied |
| `Wheelhouse.LateConstraintIsNotChecked` | scripts/validate-uos-wheelhouse.py:175-195 | A wheelhouse that passes with a violated constraint, recorded after its package's last round |
| `Wheelhouse.ProcessKeeps` | scripts/validate-uos-wheelhouse.py:183-201 | One round keeps every known name queued or processed with its present extras, and every need taken up |
| `Wheelhouse.Validator.MarkerApplies` | scripts/validate-uos-wheelhouse.py:135-145 | True exactly when there is no marker, or it is true at some extra, or there are no extras and it is true at "" |
| `Wheelhouse.Validator.Validate` | scripts/validate-uos-wheelhouse.py:148-215 | The pinned packages are required first; then the result is 0 exactly when the worklist has nothing to report |
| `LoginThrottle.PrunedIffEvicts` | backend/app/login_throttle.py:47-70 | A prune leaves the table within its bound, with everything not stale unless the bound is reached: exactly the overflow is evicted, the first in the eviction order |
| `LoginThrottle.PrunedMeans` | backend/app/login_throttle.py:47-70 | In plain fields: an entry goes if it is not locked and was not seen within twice the window or twice the lock time; another only from a table left full, before entries that are locked, or have failed more often, or not less often and were seen no earlier |
| `LoginThrottle.EvictedOnlyAmongLocked` | backend/app/login_throttle.py:56-70 | A locked entry is evicted only when all survivors are locked, and then more live entries are locked than are kept |
| `LoginThrottle.AlwaysSurvivesIff` | backend/app/login_throttle.py:61-70 | An entry survives whatever the order among ties exactly when as many others strictly precede it as are evicted |
| `LoginThrottle.TableAlwaysHolds` | backend/app/login_throttle.py:106-123 | Over all runs an entry's lock lasts at least to its last failure plus the lock time when its failures reached the limit, and is zero when not |
| `LoginThrottle.LockLasts` | backend/app/login_throttle.py:72-138 | When failures are recorded only for pairs just let through, and no more entries are locked than fit, a lock keeps the pair refused until a millisecond is left |
| `LoginThrottle.FailureKeepsLockIff` | backend/app/login_throttle.py:108-122 | Otherwise a failure shortens a lock exactly when the counting window has passed |
| `LoginThrottle.ReadsBackIff` | backend/app/login_throttle.py:124-130 | Recording a failure reads its own entries back whatever the order among ties exactly when enough others strictly precede both |
| `LoginThrottle.RoomForTwo` | backend/app/login_throttle.py:124-130 | It does so whenever two entries fit in |
| `LoginThrottle.FullOfRepeats` | backend/app/login_throttle.py:124-130 | It fails when both entries are new and every entry of a full table is locked or has failed twice |
| `LoginThrottle.FullTableIsReached` | backend/app/routers/auth.py:191-207 | Failures that the login route lets through, two for each account and address, fill the table from empty: a run of the program's own steps ends with every entry a repeat |
| `LoginThrottle.KeyErrorIsReached` | backend/app/login_throttle.py:91-138 | From there a new account with no known address is let through, and whatever the order among ties one of its two entries is gone when it is read back |
| `LoginThrottle.WholeSeconds` | backend/app/login_throttle.py:89-89 | The seconds reported are positive exactly when at least a millisecond remains, and suffice up to that millisecond |
| `LoginThrottle.Throttle.Prune` | backend/app/login_throttle.py:47-70 | The deletions done in place are a prune |
| `LoginThrottle.Throttle.RetryAfter` | backend/app/login_throttle.py:72-89 | After a prune the seconds reported are positive exactly when a lock of one of the two keys has a millisecond left, and are those of the longer one, rounded up but for a millisecond |
| `LoginThrottle.Throttle.RecordFailure` | backend/app/login_throttle.py:91-138 | Between two prunes the account's entry is counted against the account limit and the address's against the address limit, each anew when its window has passed, and no other entry changes; a result is returned exactly when both entries survive |
| `Notifications.KeysStayUnique` | backend/app/notifications.py:42-72 | Over every run of reconciles, reads, flushes and other notices the dedupe keys are unique in the flushed rows and in memory |
| `Notifications.ReconcileSettles` | backend/app/notifications.py:196-252 | After a reconcile every user who sees the task has at most the wanted notice standing, and no read or revoked row goes by its key; if no rename of the key was pending, it stands exactly when no row with the key had been read or revoked |
| `Notifications.ReconcileStandsIff` | backend/app/notifications.py:196-252 | Whatever was pending: it stands exactly when no row that the user's query finds by the key was read or revoked; the query finds the flushed rows as they were, unless an earlier user's turn inserts a notice and so flushes |
| `Notifications.UpsertStandsIff` | backend/app/notifications.py:120-161 | The wanted notice stands after the upsert exactly when no flushed row with its key is read or revoked in memory |
| `Notifications.SecondReconcileStands` | backend/app/notifications.py:196-252 | Reconcile, flush, reconcile: then every such user has exactly the wanted notice, unread |
| `Notifications.ReconcileLeavesDue` | backend/app/notifications.py:196-252 | After a reconcile no notice of the task is in force for a user who sees it but: on one of the user's reminder days (or, without any, so many days ahead, 3 by default, and on the last day) the deadline notice of that day; past the date, if wanted, the overdue one; none where the task has no date or is closed or reminders are off |
| `Notifications.TwoReconcilesBringDue` | backend/app/notifications.py:196-252 | After reconcile, flush and reconcile that notice is in force, unread, with the title and text for the days left |
| `Notifications.ChangedTextIsReported` | backend/app/notifications.py:134-148 | A current notice gets the wanted title and text, and a change is reported exactly when that makes a difference |
| `Notifications.ThirdReconcileIsIdle` | backend/app/notifications.py:196-252 | A third one reports no change and makes none |
| `Notifications.ReadNoticeIsNotReplacedAtOnce` | backend/app/notifications.py:149-161 | A read notice is renamed in memory only, so the first reconcile leaves the user without one |
| `Notifications.Session.Upsert` | backend/app/notifications.py:120-161 | The in-place edits are the specified step, and the change reported is the one made |
| `Notifications.Session.RevokeStale` | backend/app/notifications.py:164-193 | Exactly the standing rows whose key in memory is not wanted are revoked, and counted |
| `Notifications.Session.Reconcile` | backend/app/notifications.py:196-252 | The loop over the users is the specified reconcile, with its count, and leaves no notice in force but the one due today |

## Left out

What is assumed, and what is not modelled:

- Concurrency: each block under the condition, the write lock or the cleanup lock is one atomic step; a thread runs one session step at a time, and a session is used by one thread at a time but by different threads in turn. Which thread closes a request's session is the web framework's choice and left open; only the lemmas that name a `home` assume that sessions keep their thread. The lower bound of the drain timeout and real waiting times are not part of the model; a drain may time out at any moment while a session is counted.
- Sessions that are not ORM sessions never enter the gate, in the source as in the model.
- Hashing is an abstract function; where a lemma needs it, no two byte strings are assumed to share a hash. Signatures, JSON, ZIP compression, XML parsing and SQLite's integrity check are abstract, with their assumptions in the `requires` clauses.
- Case folding works character by character and is given by a table; Python's `casefold` may turn one character into several, which the model allows as well.
- Backups: symbolic links and `.incoming` files are left out when the kept files are selected; the path of the data directory itself is taken to have no component equal to `.incoming`. Free-space checks, the backup catalogue rows and the maintenance bracket around the restore are not modelled here.
- BackupThenRestore: is for file systems that compare paths after folding them character by character, or as they are; the store must be a tree there (no file with the folded path of a directory above another).
- BuiltIsAcceptableIff: is for file paths, which are not empty and do not end in a slash; the assumptions on hashes and on reading a manifest back are those of `BackupThenRestore`.
- RestoreSwap: SQLite's `-wal` and `-shm` files beside the database are not modelled.
- RollbackWindow: is stated for an installation whose database exists; `Survives` covers the other cases.
- Retention: an ISO week is a given pair for each row, not computed from dates.
- Tickets: the wall clock that expires tickets is taken to be the monotonic clock that purges nonces plus a constant, so a clock set back or forward is not modelled; origins are normalised by an abstract function; the HTTP layer around the nonce check is left out.
- Punctuation: the Unicode classes of the pattern are abstract; the marks at stake are assumed to be in none of them. `MatchIsTheFirstsLongest` assumes that digits are word characters and that a dot is no digit. `ComputedIff` assumes besides that the two key characters are no digits, the closing one no space, and the ten digits no spaces.
- NormalizeTwice: is for texts without the key characters; `ComputedTwice` is for all texts that do not spell out a key by mistake. For the others the second result is not characterised.
- Document formatting: paragraphs, runs, tables, styles and settings are left out; of the diagnosis only the section and page-number checks are modelled. A footer part is opaque, with assumptions on adding a number and writing back: a part the formatter has numbered or made shows its number, also when it is written back, and writing any part back keeps its field elements (for `PageFoundIff` besides, writing back twice is as once). Target paths are resolved by an abstract function that keeps the two new file names and leads nowhere from an empty target.
- SecondTimeAddsNothing: is for packages whose relationship ids are unique, and does not say that the bytes of the footers stay the same, since a footer that was made is written anew.
- Transfers: permissions, expiry, pausing and the choice of device are left out; a transfer's size and chunk size are fixed while it runs. A chunk request is atomic, so two first requests that both choose to create the part file are not modelled; nor is a crash of the machine that keeps a committed row but loses the bytes, which are not synced before it.
- StoreAlwaysHolds: is for chunk sizes up to the host's own limit of 8 MiB, since the host refuses larger chunks, and for a source that does not change; the checks by which `upload_transfer` notices a change are left out.
- PartIsAlwaysPrefix: needs the true hash with every reply; without it a short reply leaves a gap (`NoHashesNoGuarantee`).
- LockLasts: is for at most as many locked entries as fit in the table; otherwise a lock may be evicted among locked survivors only (`EvictedOnlyAmongLocked`).
- The member checks of model packs, the joining of paths and the installation of packs are abstract; a failed activation's status is modelled before the request's rollback.
- AlwaysAgrees: takes each activation, deactivation, install and uninstall as one atomic step also across database sessions; starts from a table without rows of version 1.4.0, which had active packs without an activation.
- Wheelhouse: the platform tags and metadata of wheels are read elsewhere; a marker is a function of `extra` on the target, a version specifier a function of the version.
- CompleteIffPassesAndHolds: is for markers that do not test for the absence of an extra; with such markers the final extras may exclude a dependency that an earlier round already took up.
- Login throttle: names and addresses are taken as already trimmed and case-folded, and their digests as free of collisions; time is a real number, so the rounding of floating point is not modelled. The order among ties is left open.
- Notifications: one session at a time; times are left out, so a notice is read or not, revoked or not. The daily refresh of other notices, quiet hours and party-development notices are left out.
- HTTP handlers, configuration, the upgrade transaction, office conversion, OCR, model runtimes, `apply_update_command` and the workspace scan are not part of this model.
