# Verification of RustAdmin's grab, clipboard, naming and diagnostics logic

A Dafny model of the parts of RustAdmin where several threads, machines or text transformations have to agree, with
proofs of what they keep. Each module names the source lines it follows.

- **Keyboard grab** (`GrabOwnership`, `GrabTiming`, `GrabCalls`): the owner record as a class, and the process around it as a step
  system with an integer millisecond clock, sleeping workers, queued grab operations and one operation in flight that
  checks and acts in separate steps.
- **Held keys** (`HeldKeys`, `HeldSessions`): the modifier and to-release maps, and the codes that each session's
  map-mode peer believes to be down while the grab changes hands and releases are sent late.
- **Configuration in a file name** (`Base64Url`, `Utf8`, `Text`, `ConfigName`, `ConfigLowering`, `ConfigRoundTrip`,
  `ConfigTried`, `ConfigSealed`, `ConfigHostForm`, `ConfigForms`, `ConfigFullwidth`, `ConfigJson`): printer, parser and
  when the parser reads back what was printed or signed, down to the bits of the encoding and the bytes of lower-casing.
- **Application name in translations** (`AppName`): three chained replacements against the one they stand for.
- **Clipboard** (`ClipboardItems`, `FormatNames`, `PayloadSignature`, `ApplyGuard`, `ClipboardTiming`,
  `ClipboardUpdates`, `ClipboardRelay`, `ClipboardChain`, `WireEncoding`, `FormatSignatures`, `FormatCollisions`,
  `DebugLog`): payload identity, the duplicate guard, the quiet window with concurrent updates, the relay along a chain
  of machines, the wire form, format signatures and the debug queue.
- **Diagnostic export** (`DiagnosticFiles`, `DiagnosticArchive`, `DiagnosticExport`): which files are taken and how
  many bytes of them.

`Prelude` and `Lists` hold shared types and filtering. `dafny verify dfyconfig.toml` checks everything.

Code that updates state is a class or a method with loops, proved equal to a specification function; the properties
are lemmas about those functions, over whole runs where the code is concurrent.

## What the proofs found

- `collect_files` can return 644 files for one root, not 640: a folder takes one more file after a folder inside it has
  reached the cap (`DiagnosticFiles.RootBound`, `BoundIsReached`). The later cut to 32 hides it.
- The file name printed by `main` in `src/naming.rs` is not read back (`ConfigForms.PrintedIsNotReadBack`). Other file
  names are read back exactly when the generated name holds no separator (`ConfigTried.ReadsBackIffClean`), which is
  always so for ASCII fields and not always beyond (`ConfigFullwidth.FullwidthIsRejected`).
- A signature is no text, so the name of a signed configuration can begin or end with part of a separator, and is then
  not read from some file names (`ConfigSealed.TriedEverywhereIff`); otherwise it is read from all of them
  (`ConfigSealed.SignedIsReadBack`).
- The position of `host=` is a byte index into the lowered name, used in the name itself. Where lower-casing changes the
  byte length of what comes before, the host can be lost or the parser panic (`ConfigHostForm.HostFormReadsBackIff`).
- The application-name substitution goes wrong exactly when the name follows `#A-P-P-N-A-M-E`; the source's guard looks
  for the full placeholder only (`AppName.ChainIsIntendedIff`).
- A tenure of the grab can end without a Wait of its session exactly when a deferred-release worker of that session is
  alive, and workers of earlier tenures stay alive (`GrabTiming.ReleasableUnaskedIffWorker`).
- A handoff releases no keys: what is held then stays down at the former owner's peer (`HeldSessions.StrandedStays`),
  unless its session gets the grab back in time (`HeldSessions.ReturnRepairs`).
- Releases are sent after the lock is given up, through the map that the next owner uses by then. A late release event
  takes the next owner's record of that key away, and the key can stay down (`HeldSessions.LateReleaseStrands`);
  `HeldSessions.PeerUpIff` says exactly which peers end clear.
- When the owner's session is gone, held modifiers stay marked and their next press is swallowed
  (`HeldKeys.LostWithoutSession`, `StuckModifierSwallowsPress`).
- A local clipboard change marked between the last quiet check and the write is overwritten, and one between the write
  and its mark counts as settled (`ClipboardUpdates.OverwritesFreshIffMarkedSince`, `MarkSettlesAll`).
- A generic format signature is ambiguous exactly when two different names are preserved, or when it reads at one of its
  bars as two preserved names in order, whether or not names hold bars (`FormatCollisions.CollidesIff`).
- No root starves another in the selection of files, but the byte budget of the archive can go to one root alone
  (`DiagnosticExport.OneRootTakesAll`, `ExportedIffBudgetLeft`).
- Once the byte budget of an archive is exactly used up, even an empty file is left out
  (`DiagnosticArchive.WholeIffFits`).

## Model

| member | source | states |
|---|---|---|
| GrabOwnership.GrabOwner.ChangeGrabStatus | src/keyboard.rs:282-413 | one Ready/Run/Wait/Exit call moves the owner record and answers exactly as the transition function `Change`: refresh, take-over, ignored stale Wait, debounced Wait with or without a new worker, release |
| GrabOwnership.GrabOwner.WorkerTurn | src/keyboard.rs:184-232 | one turn of a deferred-release worker: stop when not owner or without timestamp, retry inside 300 ms, otherwise release, exactly as `WorkerWakes` |
| GrabOwnership.StepKeepsInv | src/keyboard.rs:147-232 | every step of the process (time, session call, worker, check or effect of a grab operation) keeps: owner, timestamp and hooked flag come together; a pending release has a live worker of the owner; on Linux an owner/OS disagreement is covered by a queued operation that repairs it |
| GrabOwnership.InvAlongRun | src/keyboard.rs:147-413 | that invariant holds in every state of every run, for any number of sessions, workers and operations |
| GrabOwnership.ReachableStatesCoupled | src/keyboard.rs:184-204 | in every reachable state owner, timestamp and hooked flag are equivalent, a pending release has a live worker for the current owner, and a waking worker of the owner never takes the branch without a timestamp |
| GrabOwnership.QuiescentMeansAgreement | src/keyboard.rs:147-172 | Linux: with no grab operation queued or in flight the OS grab is on exactly when some session owns it, in every interleaving |
| GrabOwnership.EveryOsScheduleSettles | src/keyboard.rs:147-172 | once calls and workers rest, every schedule of the remaining operations ends within a bounded number of steps, keeps the owner, and leaves the OS following the owner |
| GrabTiming.LastGrabIsARun | src/keyboard.rs:295-345 | the debounce time of an owner is the time of one of its Run calls |
| GrabTiming.LastGrabIsLatest | src/keyboard.rs:295-345 | and of none of its earlier ones: no Run of the owner is later than the recorded time |
| GrabTiming.NoEarlyRelease | src/keyboard.rs:184-206 | with debouncing (Linux, macOS) no release, immediate or deferred, happens less than 300 ms after any Run of the released owner, in every run |
| GrabTiming.OnTimeInv | src/keyboard.rs:174-232 | with on-time wakeups no worker is overdue and a pending release has a worker of the owner due within 350 ms of its last Run |
| GrabTiming.DebouncedWaitIsHonoured | src/keyboard.rs:354-379 | with on-time wakeups and no handoff, a debounced Wait is followed by a release by the time 350 ms have passed since the owner's last Run, however many Runs refreshed the timer |
| GrabTiming.PendingReleaseComes | src/keyboard.rs:182-232 | from every state of an on-time run with a pending release, time and workers alone can go on, on time and without another call, to that release |
| GrabTiming.UnaskedReleaseNeedsWorker | src/keyboard.rs:184-206 | in every run, a release with no Wait of the owner since step k is the work of a worker of the owner that was alive at k |
| GrabTiming.ReleasableUnaskedIffWorker | src/keyboard.rs:174-232 | in every reachable state an owner's tenure can end without a Wait of its session if and only if a worker of that session is alive |
| GrabTiming.StaleWorkerReleasesNewTenure | src/keyboard.rs:174-232 | the witness: a run in which a tenure that never saw a Wait is released by a worker of an earlier tenure |
| GrabCalls.WaitReleasesIff | src/keyboard.rs:346-397 | in every run a Wait of the owner releases at once if and only if the platform is Windows or every Run of the session before it lies at least 300 ms back; all four fields are cleared and Linux is left a disabling. Otherwise a release is pending afterwards: nothing changes if one was, and else one worker is made, due 350 ms after the last Run |
| GrabCalls.RunTakesGrab | src/keyboard.rs:295-345 | in every run a Run makes its session the owner with the present time, takes a pending release back only from another session, and leaves Linux an enabling, which disables first if the grab had an owner |
| GrabCalls.OtherCallsDoNothing | src/keyboard.rs:293-353 | Ready, Exit and the Wait of a session that is not the owner change nothing |
| GrabCalls.WakeReleasesIff | src/keyboard.rs:174-232 | in every run a waking worker of the owner releases if and only if every Run of the session lies at least 300 ms back, and otherwise sleeps until 350 ms after the last one; a worker of another session is gone and changes nothing else |
| GrabCalls.OwnerIsLastRun | src/keyboard.rs:282-413 | in every run a session owns the grab if and only if it has made a Run since which no other session has made one and it has not been released |
| GrabCalls.StaleOpsDoNothing | src/keyboard.rs:147-172 | a queued enabling of a session that is not the owner any more, or a disabling while there is an owner, does nothing |
| GrabCalls.OwnersOpRegrabs | src/keyboard.rs:147-162 | the enabling of an owner switches the OS grab on, and first off if the grab was taken from another session |
| HeldKeys.KeyTracker.ProcessEvent | src/keyboard.rs:811-824 | one key event (long-press filter, modifier map, to-release map, map-mode message) has exactly the effect of `Process` |
| HeldKeys.KeyTracker.ReleaseRemoteKeys | src/keyboard.rs:826-874 | taking the map empties it; with the session available every taken key is released once, in any order, with the extra Alt press and release; without it nothing else changes |
| HeldKeys.EventKeepsInv | src/keyboard.rs:1046-1082 | every event keeps: a modifier is marked down exactly when it is in the to-release map, and the peer holds only codes of recorded keys |
| HeldKeys.FlushClearsAll | src/keyboard.rs:831-844 | after the map is taken and flushed, in any iteration order, both structures are clear and no key code is down at the peer |
| HeldKeys.EachKeyIsReleased | src/keyboard.rs:831-844 | of a flush, the events about one key are its release if it was taken, and for Alt and AltGr a press and a release more, whatever the order of keys |
| HeldKeys.OnlyTakenKeysAreSent | src/keyboard.rs:831-844 | and no event is about a key that was not taken |
| HeldKeys.PressDroppedIffModifierDown | src/keyboard.rs:811-824 | a press is dropped if and only if its key is one of the eight modifiers and down already; any other is recorded and sent |
| HeldKeys.ReleaseGoesThrough | src/keyboard.rs:1046-1082 | a release always goes through: the key leaves the map and its code the peer |
| HeldSessions.FlushExactly | src/keyboard.rs:846-874 | sending the events of a release, in any order of its keys, takes exactly the recorded codes off the peer, records nothing and unmarks exactly the modifiers recorded |
| HeldSessions.TakeAndDrain | src/keyboard.rs:826-874 | taking the map and sending its events one by one with nothing between ends like the release in one go |
| HeldSessions.ReleaseClearsAllIff | src/keyboard.rs:826-874 | such a release leaves no key down at any peer if and only if no other peer holds one and each code down at the owner's is that of a recorded key |
| HeldSessions.RunKeepsBase | src/keyboard.rs:317-412 | over every run of handoffs, key events, takes and single release events in any order: recorded and pending events carry their positions, and every press in a pending release is followed by its release |
| HeldSessions.PeerUpIff | src/keyboard.rs:317-412 | in every run, once nobody has the grab and all releases are sent, no key is down at a session's peer if and only if the last time that session lost the grab stranded nothing: each code down then was that of a key just taken, or an event still to be sent released it |
| HeldSessions.StrandedStays | src/keyboard.rs:317-345 | a code stranded when its session loses the grab stays down at that peer, with no event to come that releases it, until the session has the grab again, whatever else happens |
| HeldSessions.UndisturbedStrandsNothing | src/keyboard.rs:811-874 | nothing is stranded before one of three things happens to the session: its grab is taken over with a code down, it is gone when its release comes, or a late release event of another session takes its record of a key away |
| HeldSessions.UndisturbedIsAllUp | src/keyboard.rs:811-874 | so a run without these leaves no key down anywhere once nobody has the grab and all releases are sent, whatever comes between the events of a release |
| HeldSessions.AllUpIffRecorded | src/keyboard.rs:826-874 | in every reachable state with an owner: a release sent without anything between leaves no key down at any peer if and only if no other peer holds one and each code down at the owner's is that of a recorded key |
| HeldSessions.QuietIsClear | src/keyboard.rs:1046-1082 | in every run, once nobody has the grab and all releases are sent, no key is recorded, and no modifier is marked unless a session with a recorded modifier was gone at its release |
| HeldSessions.LateReleaseStrands | src/keyboard.rs:846-874 | the run: the next owner presses a key between the take of a release and its event for that key, which removes the new record; the key stays down when that owner loses the grab |
| HeldSessions.ReturnRepairs | src/keyboard.rs:317-345 | a run with a key stranded at a handoff that is released after all, because its session gets the grab back first |
| HeldKeys.LostWithoutSession | src/keyboard.rs:846-859 | losing the grab of an unavailable session keeps modifiers tracked if and only if none was held |
| HeldKeys.StuckModifierSwallowsPress | src/keyboard.rs:811-824 | a modifier left marked that way swallows its next press |
| Base64Url.DecodeEncode | src/naming.rs:8-11 | decoding undoes encoding for all byte strings (section 5 of RFC 4648, no padding) |
| Base64Url.EncodeDecode | src/custom_server.rs:28 | the strict decoder accepts only what the encoder writes for those bytes |
| Base64Url.HyphenPositions | src/naming.rs:8-11 | for ASCII bytes the digit `-` (sextet 62) occurs only at index 3 modulo 4 |
| ConfigName.ReadElements | src/custom_server.rs:59-87 | the `host=` loop yields for each field the last element with its prefix after lower-casing, whatever the order of the elements |
| ConfigName.GetCustomServerFromString | src/custom_server.rs:39-108 | the parser with its nested loops and early returns computes `Parse`: suffix stripping, the `host=` form sliced at a byte index of the lowered name (which may panic), or the first piece between `--` (or part between `(`) that decodes |
| ConfigRoundTrip.NameShape | src/naming.rs:8-11 | every generated name is made of base64url digits, starts with one of `9Q0` and ends with `e` |
| ConfigRoundTrip.HyphensFourApart | src/naming.rs:8-11 | in the name of an ASCII configuration any two hyphens are a multiple of four apart |
| ConfigRoundTrip.AsciiNamesAreClean | src/naming.rs:8-11 | so neither `--` nor `-licensed-` occurs in it |
| ConfigRoundTrip.WrappedIsRead | src/custom_server.rs:89-105 | a text that is read by itself is read from every file name it can be wrapped in, if it is clean and clear |
| ConfigRoundTrip.CleanNameReadsBack | src/custom_server.rs:89-105 | any configuration whose name holds neither separator is read back from every file name with one of the four separators, any copy marks, any `--` tail without `host=`, and `.exe` or `.exe.exe` |
| ConfigRoundTrip.AsciiConfigReadsBack | src/custom_server.rs:21-46 | in particular every configuration with ASCII fields |
| ConfigJson.JsonInjective | src/naming.rs:8-11 | different configurations are printed as different JSON bytes, for all strings |
| ConfigJson.EscapeMeans | src/naming.rs:8-11 | quotes, backslashes and control characters are escaped, in the short form where there is one, and each escape stands for its character (section 7 of RFC 8259) |
| ConfigJson.FaithfulLibrariesExist | src/custom_server.rs:29-33 | the assumptions the round trips make about the JSON reader and the signature check can be met |
| ConfigLowering.LettersAreLowered | src/custom_server.rs:40-46 | every lower-casing considered turns the capitals of ASCII into the small letters |
| ConfigLowering.OthersAreNotLowered | src/custom_server.rs:40-46 | and leaves the rest of ASCII alone |
| ConfigLowering.ParseByPieces | src/custom_server.rs:40-46 | for every lower-casing that gives no ASCII character but `i` and `k` from others, suffixes and `host=` are found exactly where ASCII lower-casing shows them |
| ConfigTried.TriedIsClean | src/custom_server.rs:89-105 | for every file name whatever, a text that the parser tries and that does not start with a hyphen holds neither `--` nor `-licensed-` |
| ConfigTried.UncleanIsNeverTried | src/custom_server.rs:89-105 | so a generated name that holds one is tried for no file name |
| ConfigTried.ReadsBackIffClean | src/custom_server.rs:89-105 | a configuration is read back from those file names if and only if its generated name holds neither separator, for every reader that does not find it in another tried text |
| ConfigTried.ParseIsFirstTried | src/custom_server.rs:89-108 | a name without `host=` is read as the first readable of all texts that are tried, in their order, and rejected if there is none |
| ConfigTried.TrimIs | src/custom_server.rs:89-105 | trimming takes the white space at both ends and nothing else |
| ConfigTried.WhitespaceIs | src/custom_server.rs:89-105 | white space is the characters with Unicode's White_Space property |
| ConfigSealed.SignedIsReadBack | src/custom_server.rs:32-33 | bytes that are no configuration but carry one under a good signature are read as it from every file name of CleanNameReadsBack, if their printed form is clean and clear |
| ConfigSealed.SealedOutcome | src/custom_server.rs:29-37 | for any bytes printed so, and no tail, the outcome is what the bytes say, or else what their verified message says, or else rejection |
| ConfigSealed.TriedEverywhereIff | src/custom_server.rs:89-105 | a text of base64url digits is tried in every such file name if and only if it holds neither separator, does not start with `-` or `licensed-`, and does not end with `-` or, a hyphen in front of it, with `-licensed` |
| ConfigSealed.AsciiBytesAreClean | src/naming.rs:8-11 | bytes below 128 are printed as names without a separator, whatever they say |
| ConfigSealed.SignedNamesExist | src/custom_server.rs:29-33 | for every configuration with ASCII fields there are libraries and signed bytes that meet what SignedIsReadBack assumes |
| ConfigHostForm.HostFormReadsBackIff | src/custom_server.rs:59-87 | for every prefix and every configuration, the `host=` form with a final comma is read back if and only if no field has a comma and the slice, taken where `host=` is first found in the lowered name, ends at or behind the prefix with no more than the leading empty fields lost, or starts at a character of the prefix such that a comma ends the prefix, or its last element is no `host=` and the host last read from the rest of the prefix is the same |
| ConfigHostForm.SameLengthReadsBack | src/custom_server.rs:59-87 | so it is always read back where lowering keeps the byte length of the prefix |
| ConfigHostForm.ReadsBackIffSameLength | src/custom_server.rs:59-60 | and, with a host and no comma in the prefix, only there |
| ConfigHostForm.DottedPrefixLosesHost | src/custom_server.rs:59-60 | behind a prefix with U+0130 exactly the host is lost |
| ConfigHostForm.KelvinPrefixPanics | src/custom_server.rs:59-60 | behind a prefix of U+212A the slice lies inside a character and panics |
| ConfigForms.PrintedFileNameIsRejected | src/naming.rs:24 | the file name that the printer's `main` prints is rejected when the generated name holds neither separator |
| ConfigForms.PrintedIsTriedWhole | src/naming.rs:24 | given the printed file name of a clean generated name, the parser tries one text, the name with the prefix in front of it |
| ConfigForms.PrintedNameIsNeverTried | src/naming.rs:24 | for every configuration, the parser never tries the generated name by itself when given the printed file name |
| ConfigForms.PrintedIsNotReadBack | src/naming.rs:24 | so no configuration is read back from its printed file name, by any reader that takes only what ends like JSON, if the tried texts that start like the prefix carry no signature and the others, which a clean name has none of, are not read as the configuration |
| ConfigFullwidth.FullwidthIsRejected | src/custom_server.rs:89-105 | a configuration with U+FF01 in its key whose generated name holds `--`, and whose file name is rejected: both pieces have lengths that do not decode |
| AppName.ReplaceInTranslation | src/lang.rs:188-218 | the closure computes `Translated`, and leaves text alone in a build under its own name without a placeholder value |
| AppName.OtherNamesReplaceAll | src/lang.rs:196-197 | an application name without `RustDesk` is put in the place of every `RustDesk` and of nothing else |
| AppName.TranslatedIs | src/lang.rs:188-218 | for every text, value, name and kind of build: `{}` is filled in everywhere; the rest is left alone in RustDesk's own build, for exempt texts and for texts with the placeholder, and is otherwise the intended substitution, for branded names if and only if no stub is in the way |
| AppName.ChainIsIntendedIff | src/lang.rs:205-212 | for text without the placeholder, the three chained replacements equal: split at the application name, replace inside each piece, rejoin, if and only if no piece before an application name ends in `#A-P-P-N-A-M-E` |
| AppName.ChainIsIntendedWithoutHash | src/lang.rs:194-214 | so they do for every text without `#` |
| AppName.StubBreaksChain | src/lang.rs:205-212 | for every such application name there is a text on which the chain goes wrong |
| ClipboardItems.FormatsSpelled | src/clipboard.rs:116-124 | the bytes that the comparisons use for the owner's and the Excel format name spell these names |
| ClipboardItems.WithoutMarkersIs | src/clipboard.rs:500-510 | without markers: the items in their order, all but those under the owner's name with each letter small or capital |
| PayloadSignature.BuildSignature | src/clipboard.rs:524-575 | the signature loop pushes exactly `Signature(data)`: tag and length-prefixed parts of each item, owner markers skipped |
| PayloadSignature.DecodeSignature | src/clipboard.rs:512-575 | a decoder recovers from the bytes the item list with its owner markers removed, for any list |
| PayloadSignature.SignatureIdentifiesPayload | src/clipboard.rs:524-575 | two payloads have equal signatures exactly when they are equal up to owner markers |
| PayloadSignature.OneItemIsTold | src/clipboard.rs:524-575 | lists that differ in one item under other names than the owner's, such as two spreadsheets, have different signatures |
| ApplyGuard.RemoteClipboardApplyGuard.ShouldSkip | src/clipboard.rs:273-294 | skips exactly a call with the recorded side and signature less than 2 s after it, and records the call either way |
| ApplyGuard.Feed | src/clipboard.rs:578-596 | one guard fed a run of payloads answers as `Verdicts` says |
| ApplyGuard.SkippedIffRepeat | src/clipboard.rs:273-294 | in any run of calls, call i is skipped exactly when call i-1 had the same side and the same payload up to markers less than 2 s earlier |
| ApplyGuard.SteadyRepeatsStaySuppressed | src/clipboard.rs:275-285 | corollary of SkippedIffRepeat: a steady stream of repeats stays suppressed however long it lasts |
| ApplyGuard.NothingIsLost | src/clipboard.rs:273-294 | the last payload let through always equals the last payload offered |
| ClipboardTiming.Timing.MarkLocalChange | src/clipboard.rs:298-301 | marks the time and forgets the opaque signature |
| ClipboardTiming.Timing.MarkExternalOpaqueChange | src/clipboard.rs:303-310 | marks only a signature other than the last, and reports whether it did |
| ClipboardTiming.Timing.MarkRemoteApply | src/clipboard.rs:312-315 | marks the time and forgets the opaque signature |
| ClipboardTiming.Timing.RemoteUpdateDelay | src/clipboard.rs:317-333 | the delay of the current marks |
| ClipboardTiming.DelayIffUnsettled | src/clipboard.rs:297-334 | over every ordered history of marks, a delay is asked for exactly when some local change less than 750 ms old is newer than every remote apply |
| ClipboardTiming.DelayIsShortest | src/clipboard.rs:327-332 | with no further marks the delay returned is the shortest wait after which none is left |
| ClipboardTiming.PollingKeepsWindow | src/clipboard.rs:303-310 | polling one unchanged opaque signature any number of times leaves all marks as after its first sighting |
| ClipboardTiming.PollingAdmitsAfterQuiet | src/clipboard.rs:622-631 | so remote updates are admitted from 750 ms after the first sighting in every such run |
| ClipboardTiming.SightingRestartsWindow | src/clipboard.rs:297-315 | a sighting starts a new window exactly when the event before it is not a sighting of the same signature |
| ClipboardUpdates.StepKeepsInv | src/clipboard.rs:1726-1755 | every step of any number of concurrent updates and local changes keeps what each update's position in `do_update_clipboard_` promises |
| ClipboardUpdates.WriteOnlyAfterQuietCheck | src/clipboard.rs:1726-1755 | in every interleaving, an update gets to the write only if direction and payload allow it and its last quiet check found no local change newer than the last remote apply within 750 ms |
| ClipboardUpdates.DroppedOnlyForNewerChange | src/clipboard.rs:1744-1754 | an allowed, delayed update is dropped only for a local change that came after its first delay answer and unsettles the clipboard at the second |
| ClipboardUpdates.OneSleepSuffices | src/clipboard.rs:1734-1754 | one sleep of the returned delay is enough when no local change is marked after it was asked for |
| ClipboardUpdates.ChecksPassAgain | src/clipboard.rs:1736-1743 | the payload and direction checks after the sleep never block an update that passed them before |
| ClipboardUpdates.CheckDecides | src/clipboard.rs:1726-1740 | the first check of an update lets it through if and only if direction and items permit it and blocks it otherwise; the check after its sleep never blocks |
| ClipboardUpdates.BlockedIffForbidden | src/clipboard.rs:598-616 | in every run a checked update is blocked if and only if its direction is neither both nor remote-to-local, or one of its items is of no kind, not supported, or under another name than the Excel format's and the owner's |
| ClipboardUpdates.ForbiddenIsNeverPut | src/clipboard.rs:482-497 | so such an update is never written |
| ClipboardUpdates.HistoryIsWhatHappened | src/clipboard.rs:618-632 | a step adds to the history exactly what happened in it: a local change, a sighting, also one made in the check of a permitted update, or the mark of a write |
| ClipboardUpdates.UpdateStays | src/clipboard.rs:1726-1755 | what an update carries, and its direction, stay as they arrived |
| ClipboardUpdates.SightingHoldsBack | src/clipboard.rs:622-631 | a new opaque clipboard seen in a check holds the update back for 750 ms, and drops it if it has slept before, unless another update is marked as applied in the same millisecond |
| ClipboardUpdates.MarksAreWrites | src/clipboard.rs:1778-1784 | in every run there are as many apply marks as written updates |
| ClipboardUpdates.AloneBetweenWriteAndMark | src/clipboard.rs:1756-1786 | in every run at most one update is between its write and its mark |
| ClipboardUpdates.WriteOutcome | src/clipboard.rs:1779-1784 | a write that succeeds can be marked, and one that fails ends the update without a mark |
| ClipboardUpdates.UpdateGoesOn | src/clipboard.rs:1726-1786 | an update that is not finished can go on: at once, when its sleep is over, or when the update before it is marked |
| ClipboardUpdates.AnythingCanCome | src/clipboard.rs:599-635 | time, local changes, sightings and new updates can come at any moment |
| ClipboardUpdates.OverwritesFreshIffMarkedSince | src/clipboard.rs:1744-1780 | in every run, an admitted update's write overwrites a change that is less than 750 ms old and newer than every remote apply if and only if such a change was marked after its last check |
| ClipboardUpdates.MarkSettlesAll | src/clipboard.rs:1780-1783 | the mark after the write settles every change before it, also one made after the write: no later moment is unsettled until a new change |
| ClipboardUpdates.ChangeAfterCheckIsOverwritten | src/clipboard.rs:1755-1784 | the witness: a run in which a brand-new change is overwritten |
| FormatNames.FindBlockReason | src/clipboard.rs:482-497 | the scan returns the reason of the first blocked item |
| FormatNames.UnblockedIff | src/clipboard.rs:453-497 | a payload is unblocked exactly when none of its items is blocked |
| FormatNames.PayloadPassesIff | src/clipboard.rs:453-497 | a payload passes if and only if every item is a text, page, rich text, image, file list, spreadsheet or owner marker, by kind and by letters |
| FormatNames.FirstGivesReason | src/clipboard.rs:482-497 | otherwise the first item that may not be written gives the reason |
| FormatNames.ItemPasses | src/clipboard.rs:453-497 | and which of the three reasons it is |
| FormatNames.PolicyAllowsIff | src/clipboard.rs:86-88 | updates are let in if and only if the direction is both or remote-to-local and every item may be written |
| FormatNames.ShouldPreserveIff | src/clipboard.rs:638-744 | a name is preserved if and only if a native format stands in it, or a risky one does and it is no safe format itself, letters small or capital |
| FormatNames.IsWindowsOpaqueIff | src/clipboard.rs:660-694 | a name is opaque on Windows if and only if it is numbered, listed, or a native format stands in it |
| ClipboardRelay.ApplyIncoming | src/clipboard.rs:1713-1779 | an arriving list is dropped when empty, blocked or made of markers only, and otherwise written without its markers and with this side's own |
| ClipboardRelay.FirstHop | src/clipboard.rs:1945-1974 | a listener on either side reads an unmarked clipboard, and what it sends is the cargo: transferable items except empty text |
| ClipboardRelay.TakenExactly | src/clipboard.rs:1945-1974 | of any clipboard a listener takes nothing if its side wrote it, and otherwise in order everything but empty texts, owner formats and missing data |
| ClipboardRelay.SentExactly | src/clipboard.rs:1945-1974 | and sends of it, in order and with repetitions, exactly the non-empty texts, pages, rich texts, images and special formats |
| ClipboardRelay.CargoIsSent | src/clipboard.rs:1965-1973 | which is the cargo of the theorems about chains |
| ClipboardRelay.IncomingExactly | src/clipboard.rs:1713-1787 | the receiving side writes all items but the owner's and its own mark behind them, if each may be written and one is left |
| ClipboardRelay.NextHop | src/clipboard.rs:1945-1974 | a written clipboard is passed on unchanged by the other side and reads as empty on the side that wrote it |
| ClipboardChain.StepSpreads | src/clipboard.rs:1768-1786 | every read and delivery keeps: an interval of the chain has the copy, each of its machines but the origin was written once, and only the two ends have a read or message outstanding |
| ClipboardChain.RelayReachesEveryoneOnce | src/clipboard.rs:1768-1786 | on any chain, from any position and in every order, one unmarked relayable copy is written at no machine twice and never at its origin, within 4n steps; when nothing is outstanding all n-1 others were written and hold the cargo with their marker |
| ClipboardChain.OrdinaryCopyReachesAll | src/clipboard.rs:1713-1787 | in every finished run a copy of non-empty texts, pages, rich texts, images and spreadsheets is on all n-1 other machines whole, with the mark of the side that wrote it |
| ClipboardChain.TextReachesAll | src/clipboard.rs:1965-1973 | in particular one text that is not empty |
| ClipboardChain.RelayedIffRelayable | src/clipboard.rs:482-497 | a finished run wrote anything if and only if the copy has cargo that is not blocked and there is a second machine |
| ClipboardChain.NothingElseIsWritten | src/clipboard.rs:1713-1733 | a copy without cargo, or with a blocked item, is never written anywhere |
| ClipboardChain.NeverStuck | src/clipboard.rs:1945-1974 | a run with something outstanding can go on |
| WireEncoding.SideTrip | src/clipboard.rs:3190-3191 | an image side survives the cast to a signed 32-bit field and back exactly below 2^31 or from 2^64 - 2^31 |
| WireEncoding.CompressedIsShorter | src/clipboard.rs:3160-3175 | compressed bytes are sent, and the flag set, exactly where they are fewer than the raw ones; PNG images go as they are |
| WireEncoding.SidesOnTheWire | src/clipboard.rs:3177-3232 | the sides of a raw image go into the fields of their names modulo 2^32, the name of a special item into its own, and nothing into those of others |
| WireEncoding.ItemTrip | src/clipboard.rs:3234-3284 | an item has a wire form exactly when it is of a transferable kind, and comes back equal exactly when its image sides survive |
| WireEncoding.ListTrip | src/clipboard.rs:3247-3292 | a list comes back as its transferable items exactly when every raw image side survives, for any compression that its decompression inverts |
| WireEncoding.ReceivedInOrder | src/clipboard.rs:3287-3292 | each entry of a received list gives what it gives by itself, in order, whatever the entries around it give |
| WireEncoding.DroppedIff | src/clipboard.rs:3258-3284 | a received entry gives no item if and only if its kind is unknown, or it should be a text and is not valid UTF-8 |
| WireEncoding.ReceivedIsWellFormed | src/clipboard.rs:3258-3292 | whatever the other side sent, the items received are of transferable kinds with valid texts |
| FormatSignatures.CanonicalIff | src/clipboard.rs:718-719 | sort and dedup give equal lists exactly for equal sets of names |
| FormatSignatures.WindowsCanonical | src/clipboard.rs:696-724 | the Windows signature depends on sequence number, owner flag and the set of names only |
| FormatSignatures.GenericCanonical | src/clipboard.rs:777-798 | so does the generic signature, for any plain-text classifier |
| FormatSignatures.WindowsSignatureIs | src/clipboard.rs:696-724 | there is no Windows signature if and only if the clipboard is RustDesk's own, has names but no opaque one, or has a text and no opaque name but wrappers; otherwise it is the number and the opaque names, each once and in order |
| FormatSignatures.GenericSignatureIs | src/clipboard.rs:777-798 | there is no generic signature if and only if the owner's name is there or no name is preserved and not plain text; otherwise it is those names, each once and in order |
| FormatSignatures.BeforeIsLexical | src/clipboard.rs:718-719 | the order is that of dictionaries, by bytes |
| FormatSignatures.DecimalReads | src/clipboard.rs:723 | the sequence number is written in decimal without leading zeros |
| FormatCollisions.WindowsNamesTheSet | src/clipboard.rs:696-724 | among opaque names without `&#124;`, the empty list included, equal Windows signatures mean equal sequence numbers and equal sets of opaque names |
| FormatCollisions.GenericNamesTheSet | src/clipboard.rs:777-798 | among preserved names without `&#124;`, equal generic signatures mean equal sets of preserved names |
| FormatCollisions.SingleNameIsUnique | src/clipboard.rs:777-798 | a single preserved name without `&#124;` shares its signature with no other set, whatever the other list holds and whatever counts as plain text |
| FormatCollisions.CollidesIff | src/clipboard.rs:771-798 | every list that has a generic signature, bars or not, shares it with some list of another set if and only if it preserves two different names, or the signature splits at a bar into two names in order, each preserved and neither the owner's |
| FormatCollisions.CollidesIffTwoNames | src/clipboard.rs:771-798 | corollary: among lists whose preserved names hold no `&#124;`, exactly those collide that preserve two different names |
| FormatCollisions.BarsCollide | src/clipboard.rs:797 | the smallest case: two opaque names, and the one that joins them with `&#124;` |
| DebugLog.TruncateLine | src/clipboard.rs:843-854 | the loop cuts a long line at the last character boundary within 1200 bytes |
| DebugLog.BoundaryIffValidPrefix | src/clipboard.rs:847-850 | in valid text the character boundaries are exactly the ends of valid prefixes |
| Utf8.CharIsCharacter | src/clipboard.rs:847-850 | characters are written in the one form that section 4 of RFC 3629 allows |
| DebugLog.TruncationKeepsText | src/clipboard.rs:843-854 | a valid line becomes its longest valid prefix within 1200 bytes, at most three bytes short of that, and three dots: valid text of at most 1203 bytes |
| DebugLog.DebugQueue.Push | src/clipboard.rs:857-866 | appends, dropping the oldest of 64; ignored while the exchange is off |
| DebugLog.DebugQueue.QueueLines | src/clipboard.rs:879-886 | pushes every line, truncated, in order |
| DebugLog.DebugQueue.Take | src/clipboard.rs:889-895 | empties the queue and hands its lines over only while the exchange is on |
| DebugLog.QueueHoldsLast | src/clipboard.rs:857-895 | over any run the queue is exactly the last 64 truncated lines accepted since the last drain, in order |
| DiagnosticFiles.CollectFiles | src/diagnostics.rs:302-345 | the recursive visit with its early returns adds exactly `Collected` |
| DiagnosticFiles.CollectedExactly | src/diagnostics.rs:302-345 | which is every candidate within depth 4 while the cap of 640 is not reached, and otherwise the first 640 of them and, for each folder around the one where it was reached, the next file directly in it |
| DiagnosticFiles.RootBound | src/diagnostics.rs:302-345 | so a root gives at most 644 files, and at most 640 exactly when there are fewer than 640 candidates or no such folder has a next file |
| DiagnosticFiles.BoundIsReached | src/diagnostics.rs:341-343 | a tree that gives 644 |
| DiagnosticFiles.NewestAreKept | src/diagnostics.rs:229-230 | a root keeps the newest min(32, collected) files: what it drops is no newer than anything it keeps |
| DiagnosticFiles.NewestFirstIsStable | src/diagnostics.rs:229 | files with one time stamp keep their order |
| DiagnosticFiles.SelectFiles | src/diagnostics.rs:226-241 | the selection over all roots fails exactly when an installed service root has no file, and otherwise is the newest 160 of what the roots keep |
| DiagnosticFiles.MissingServiceIff | src/diagnostics.rs:231-237 | the failing case: an installed service whose own root has no candidate within the depth limit |
| DiagnosticFiles.RootsAre | src/diagnostics.rs:179-217 | the log folder is always a root, the application's where there is one, and the service's three on Windows |
| DiagnosticFiles.NoRootStarves | src/diagnostics.rs:179-241 | with the roots there are, the last cut of the selection drops nothing and every file a root keeps is selected |
| DiagnosticArchive.ReadTail | src/diagnostics.rs:460-478 | reads the whole file, or the last `limit` bytes without their first line, or nothing for limit 0 |
| DiagnosticArchive.TailIsWholeLines | src/diagnostics.rs:460-478 | a cut file keeps the longest suffix of whole lines shorter than the window, or the whole window when it has no newline; nothing else is marked truncated |
| DiagnosticArchive.WriteArchive | src/diagnostics.rs:373-434 | the loop writes one redacted body for each accepted file and returns counters equal to what was written |
| DiagnosticArchive.ArchiveStaysInBudget | src/diagnostics.rs:406-433 | at most 16 MiB in total and 2 MiB for one file, byte and truncation counters equal to the sums over the entries, each entry a tail of its file |
| DiagnosticArchive.WholeIffFits | src/diagnostics.rs:406-433 | every readable file is included whole and in order exactly when each is within 2 MiB, they sum to at most 16 MiB, and all but the last sum to less |
| DiagnosticExport.ExportFromRoots | src/diagnostics.rs:219-251 | selection and archive together: the report counts the archive of the selected files, unless the installed service root has none |
| DiagnosticExport.SelectedAreNewest | src/diagnostics.rs:240-241 | the selected files are the 160 newest of what the roots keep, newest first |
| DiagnosticExport.ExportedIffBudgetLeft | src/diagnostics.rs:406-433 | a selected file is exported if and only if it can be read and less than 16 MiB were taken from the files before it |
| DiagnosticExport.EightFullFilesTakeAll | src/diagnostics.rs:406-409 | eight newest files of exactly 2 MiB leave all others out |
| DiagnosticExport.OneRootTakesAll | src/diagnostics.rs:226-241 | two roots, one with eight files of exactly 2 MiB and the other with one older readable file: that file is kept and selected, and is not in the archive, whose eight entries are all of the first root |

## Left out

- ConfigRoundTrip.AsciiConfigReadsBack: assumes of the JSON reader that it undoes the printer and accepts only input that starts like JSON, and of the signature check that it rejects input shorter than a signature; a `--` tail must not contain `host=`, which sends a name to the other form.
- ConfigForms.PrintedFileNameIsRejected: for names without `--` and `-licensed-`, and assuming the decoded bytes carry no valid signature; for other names PrintedIsNotReadBack says that the configuration is not read back, and nothing about other configurations.
- ConfigForms.PrintedIsNotReadBack: of an unclean name the parser also tries pieces behind the first; that none of them is read as the whole configuration is assumed of the reader.
- ConfigSealed.SignedIsReadBack: for printed forms that are clean and clear; a text that is not may still be read from some file names; TriedEverywhereIff says that there is one in which it is not tried.
- ConfigSealed.SealedOutcome: without a tail, which can hold other texts that are read.
- ConfigTried.ReadsBackIffClean: one direction assumes that the reader finds the configuration in no other text it tries; a tail can carry a second, signed copy of it.
- ConfigName.GetCustomServerFromString: lower-casing is a parameter that maps each character by itself; the final form of sigma, which depends on its neighbours, has the same byte length as the other and no ASCII in it.
- HeldKeys.FlushClearsAll: for map mode, where the key determines its code; legacy and translate modes and lock-key modes are not modelled; HeldSessions has several peers and lets other events come between those of a release.
- HeldSessions.RunKeepsBase: one key event is one step, from the long-press filter over both maps to the peer, and goes to the owner of the grab at that step or to the session of its release; whether that session is there is settled when the map is taken.
- FormatCollisions.GenericNamesTheSet: only for names without `|`; CollidesIff says exactly which lists, with bars or without, share their signature with another set.
- FormatCollisions.WindowsNamesTheSet: only for opaque names without `|`; it is the sufficient condition, and which lists with bars share a Windows signature is not worked out.
- ClipboardUpdates.WriteOnlyAfterQuietCheck: check and write are two steps in the source, so it speaks of the last check; OverwritesFreshIffMarkedSince says exactly what can come between.
- ApplyGuard.NothingIsLost: a payload let through may still fail to be written; the guard has recorded it by then and skips a retry within 2 s.
- ClipboardChain.RelayReachesEveryoneOnce: direction policy, quiet window and duplicate guard let every write through, the clipboard holds no natively opaque format, each change gives each listener one notification, and the machines form a chain.
- WireEncoding.ListTrip: strings are valid UTF-8 and image sides 64-bit words, as their types demand; protobuf framing and the single-item form for old peers are not part of this model.
- The reader's `is_risky_native_format_name` trims the name first; no pattern it looks for contains white space, so trimming cannot change the answer and is omitted.
- The text of the direction option, and which option is read for which side: the policy is a parameter.
- macOS format signatures (a change count in front of the generic one), the plain-text fallback, and the file-clipboard feature that replaces lists with file URLs.
- Relative-mouse shortcut, key classification tables, poisoned locks and the switch that turns the grab off for a whole build.
- Zip, JSON, compression, regular-expression redaction, UTF-8 replacement of broken bytes in logs, and signature verification: library calls, kept as parameters or left out.
- The file system: a directory is read once, files do not change between listing and reading, and only opening can fail; a full disk, the temporary file and its rename are not part of this model.
- Archive entry names, extension tests and symbolic links: decided per entry, and stand behind `Ignored`.
- File clipboard, Wayland listener, sockets, command line, and all calls into the window system.
