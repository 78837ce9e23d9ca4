# UBackup: a verified model of its streaming, selection and provisioning core

UBackup backs up an Ubuntu machine with Restic through a privileged helper. This
project models the parts of it where a streaming, fast or incremental form has to
agree with a simple specification, and proves that it does, for all inputs, all
runs and all fragmentations of the data.

* **The authenticated session.** Length-prefixed frames (`Framing`), the
  incremental startup parser and the language of frame sequences it accepts
  (`StartupParser`, `StartupLanguage`), chunked base64 transport with reassembly
  (`Base64`, `SessionTransport`), and the broker and the helper as two processes
  that step over two byte pipes (`SessionModel`). Every step moves one byte or makes
  one decision, so every fragmentation and interleaving is a run. `SessionInvariant`
  holds the invariant for whole frames, `SessionSplice` what becomes of a session whose
  request a cancel frame has cut, `SessionDropped` what becomes of one whose cancel frame
  is still being read when the control monitor is stopped, `SessionSafety` the theorems
  about all runs, and `SessionProgress` those about all schedules over pipes of any size,
  before and after a cancellation. `SessionRace` is a run in which a cancel frame is
  missed. `SessionRefusal` and `SessionBounds` speak of arbitrary frames and
  arbitrary bytes: what either side accepts and what it may have to hold. `SessionCodec`
  gives a concrete JSON text that satisfies the laws the session assumes of its codec.
  `ControlMonitor` and `Cancellation` model the monitor that shares the helper's input
  and the cancellation state it sets.
* **Selection and planning.** Glob patterns and the two matchers (`Patterns`), what a
  glob construct and a literal pattern mean (`Globs`, `PatternMeaning`), the resolver
  with its generated exclusion list and the closed-directory test (`Selection`,
  `SelectionExamples`), the paths that are never backed up (`HardPaths`), and the split
  of sources around protected trees (`SourceSplit`, `SplitTheorems`).
* **The size scanner and its cache.** `SizeScanner`, `ScanTheorems`, `ScanCache`,
  `ScanExamples`.
* **Bounded listing, paging and line splitting.** `Listing`, `Paging`, `PageText`,
  `LineDrain`.
* **Provisioning.** `Provisioning`, `AdmissionTheorems`, `ProvisionTheorems`.

Code that changes things step by step is a class or a method with loops, proved
against a function that specifies it; the theorems are about that function. Paths
are sequences of component names; `Paths` proves that their texts are normalised,
injective, and that the string tests of the source are the prefix relation.

## What turned out not to hold as promised

Each of these is stated as a theorem with its exact condition or a concrete input.

* The compiled matcher and `matches_resticish` disagree on a `/**` pattern whose base
  ends in a slash (`Patterns.MatchersAgreeEverywhere` says for exactly which patterns).
* The generated list can exclude a selected path. For every path and every policy it
  excludes exactly what a manual exclusion's pattern matches, and what the last rule
  with anything to say matches while none of that rule's overrides does
  (`Selection.ExcludedExactly`). A selected path is excluded only through a manual
  exclusion, or an inclusion at or above it, whose own path holds glob characters
  (`Selection.SelectedExcludedOnlyByGlobs`); with literal policy rows it never is,
  whatever its own name holds (`Selection.SelectedNeverExcluded`). Inputs:
  `SelectionExamples.GlobExclusionLeaks`, and ticking a file with brackets in its name
  under the shipped rule `*.tmp`, `SelectionExamples.BracketInclusionLeaks`.
* A recursive inclusion overrides the rules that match its own path only if the first of
  them gives a reason; a rule with an empty reason text cannot be overridden this way
  (`Selection.SelectedExactly` is the exact condition, `Selection.RulesGiveWay` its part).
* The scanner and the resolver disagree about what lies below a usr-merge alias that is
  a link (`HardPaths.ScannerAgrees`), which no walk without links reaches.
* The closed-directory test speaks for the descendants of a directory exactly if the
  directory resolves as it is inherited from the rows at and above it
  (`Selection.UnseparatedAgrees`). Two kinds do not: a directory with a bare inclusion
  and no recursive one above it, and a directory inside a recursive inclusion that only
  a rule takes out (`Selection.SettledExactly`,
  `SelectionExamples.BareIncludeIsNotUniform`).
* A cancel frame does not always end the helper by itself: cut off by its deadline, or
  consumed by a control monitor behind the last checkpoint of its phase, it leaves a
  reading helper waiting for the end of file or a deadline
  (`SessionProgress.FrameAloneEnds`). Every session has such a run
  (`SessionRace.CancelCanBeMissed`). The end of file, which `close` sends after the frame,
  always ends the helper (`SessionProgress.CancelledHelperEnds`).
* A page that `_emit` has probed can be refused when it is sent as the final page,
  which is up to two bytes longer (`Paging.ProbeIsNotEnough`, `Paging.EmitSucceeds`).
* `list_directory` without a limit, an offset or a probe answers silently with the first
  10000 entries; with an offset or a probe it refuses such a directory
  (`Listing.UnpaginatedListing`). A window of no entries ends in an index error as soon
  as there is one entry (`Listing.ListDirectory`).
* The structural exclusion of `/etc` removes what reaches into it from above and `/etc`
  itself. A source that lies strictly inside, such as `/etc/x`, is accepted and stays a
  source (`SplitTheorems.AdmittedOutputs`, `SplitTheorems.SourceInsideEtc`).
* A provisioning run that is cancelled between making a user directory and handing it
  over leaves a directory on which every later run refuses
  (`ProvisionTheorems.InterruptedRun`).
* After a forced scan the cached size of a visited path is the fresh one exactly if the
  path is excluded itself, or nothing at or above it is excluded and no cache tag drops
  it, or no file below it counts anyway (`ScanCache.CacheCoherence`). The shipped rule
  `*.tmp` excludes `/x.tmp` and not `/x.tmp/d`, whose cached size is stale
  (`ScanExamples.TmpDirectoryIsStale`).

## Model

| member | source | states |
|---|---|---|
| Patterns.MatchersAgree | src/ubackup/fs_scan.py:57-83 | for every pattern and every normalised glob-free path, the compiled prefix, segment, exact and glob matcher decides as the plain matcher does, except exactly on the disputed paths of a trailing-slash base |
| Patterns.MatchersAgreeEverywhere | src/ubackup/profiles.py:142-156 | the two matchers agree on all such paths if and only if the pattern text is not ambiguous, which can be read off the pattern |
| Patterns.ExcludedByAppend | src/ubackup/fs_scan.py:85-90 | last match wins: appending re-inclusions or exclusions changes a verdict exactly when one of them matches |
| Patterns.FnMatchBelow | src/ubackup/profiles.py:148-155 | a literal base followed by "/**" glob-matches exactly the texts that continue the base with a slash |
| Patterns.FnMatchSegment | src/ubackup/profiles.py:148-154 | "**/needle/**" with a literal needle glob-matches exactly the texts that hold the segment between slashes |
| Globs.Star | src/ubackup/profiles.py:148 | a star stands for any beginning of the text: the rest of the pattern matches some suffix |
| Globs.QuestionMark | src/ubackup/profiles.py:148 | a question mark stands for exactly one character |
| Globs.Bracket | src/ubackup/profiles.py:148 | a bracket expression stands for one character of its class, with "]" a member when it comes first |
| Globs.OpenBracket | src/ubackup/profiles.py:148 | a bracket that is never closed is an ordinary character |
| Globs.PlainMembers | src/ubackup/profiles.py:148 | without a hyphen the members of a class are its characters |
| Globs.Range | src/ubackup/profiles.py:148 | a hyphen between two characters stands for the range with both ends |
| PatternMeaning.SegmentExactly | src/ubackup/fs_scan.py:57-83 | a "**/a/b/**" pattern without glob characters matches a path if and only if the components a and b stand in it one after the other |
| PatternMeaning.LiteralExactly | src/ubackup/fs_scan.py:57-83 | a literal pattern matches the one path it spells, and none if it is relative |
| Paths.ContainsIsPrefix | src/ubackup/selection.py:37-41 | the string containment test is the prefix relation on components, also for the root |
| Paths.TextNormalized | src/ubackup/profiles.py:147 | component paths print without empty or dot components, so the matcher theorems apply to them |
| Paths.TextInjective | src/ubackup/fs_scan.py:234 | different paths have different texts, so a row keyed by text belongs to one path |
| HardPaths.SystemHardExactly | src/ubackup/profiles.py:108-122 | a path is a hard system path if and only if its first component names a kernel tree or an alias that is a link, or it is the swap file |
| HardPaths.ResolverHardExactly | src/ubackup/selection.py:239-244 | the resolver's hard exclusions are those and what lies at or below the backup root |
| HardPaths.ScannerHardExactly | src/ubackup/profiles.py:125-129 | the scanner's patterns and prefixes exclude the same paths, except that of an alias they know only the link itself |
| HardPaths.ScannerAgrees | src/ubackup/profiles.py:108-129 | scanner and resolver agree on a path if and only if it does not lie strictly below an alias that is a link |
| Selection.Nearest | src/ubackup/selection.py:246-256 | the walk over ancestors finds the deepest ancestor-or-self with the policy, or there is none |
| Selection.FirstReason | src/ubackup/selection.py:258-269 | no reason is reported if and only if every matching rule is cancelled by the override root |
| Selection.ReasonIsFirst | src/ubackup/selection.py:258-269 | the reason reported is that of the first rule that matches and is not cancelled |
| Selection.SelectedExactly | src/ubackup/selection.py:271-320 | for every path: it is selected if and only if it is not hard excluded, no exclusion stands at or above it, and it is ticked itself or every rule that matches it gives way to its nearest recursive inclusion |
| Selection.DecisionExactly | src/ubackup/selection.py:271-320 | the origin and the recursive flag of the decision, read off rows and rules |
| Selection.HardDownward | src/ubackup/selection.py:239-244 | everything below a hard excluded path is hard excluded, except below the swap file |
| Selection.ApplyRuleOverrides | src/ubackup/selection.py:63-100 | the loop emits each rule followed at once by the re-inclusions of the roots and paths it matches |
| Selection.FilesystemScanPatterns | src/ubackup/gui/main_window.py:2103-2110 | the loop yields the effective rules followed by one subtree pattern per manual exclusion |
| Selection.Resolver.SelectedRowsMembers | src/ubackup/gui/main_window.py:2877-2889 | exactly the selected, not hard excluded rows of a policy take part in the overrides |
| Selection.DedupOrder | src/ubackup/selection.py:76-77 | removing repetitions keeps the first occurrences in their order |
| Selection.SubtreePatternMatches | src/ubackup/selection.py:79-89 | a generated subtree pattern of a literal root matches exactly the root and what lies below it |
| Selection.Rescuer | src/ubackup/selection.py:271-320 | a selected path that a rule matches has a selected policy row at or above it which the rule matches too, whatever characters the path holds; which paths are selected is `Selection.SelectedExactly` |
| Selection.GroupRescues | src/ubackup/selection.py:63-100 | a rule whose compiled pattern matches a selected path is followed by an override that matches the path, unless an inclusion at or above the path holds glob characters |
| Selection.RulesExcludeExactly | src/ubackup/selection.py:63-100 | the rules with their overrides exclude a text if and only if the last rule with anything to say about it matches and none of the stored rows' overrides for that rule does |
| Selection.ExcludedExactly | src/ubackup/gui/main_window.py:2103-2110 | for every policy map and every path: the whole generated list excludes it if and only if a manual exclusion's pattern matches it or some rule leaves it out |
| Selection.SelectedExcludedOnlyByGlobs | src/ubackup/selection.py:63-100 | a selected path can be excluded only through a policy row whose own path holds glob characters: a manual exclusion, or an inclusion at or above the path |
| Selection.SelectedNeverExcluded | src/ubackup/selection.py:271-320 | with literal policy rows no selected path is excluded, for every policy map, rule order and nesting, and for paths with any characters |
| Selection.HasDescendantMismatch | src/ubackup/gui/main_window.py:999-1017 | the search reports a mismatch if and only if some stored row below the directory resolves differently |
| Selection.ClosedDirectoryUniform | src/ubackup/gui/main_window.py:999-1017 | if no stored row disagrees with a closed directory that resolves as it is inherited, each of its infinitely many ordinary descendants resolves as it does |
| Selection.ClosedDirectoryExact | src/ubackup/gui/main_window.py:999-1017 | for such a directory the test is an equivalence: no mismatch if and only if all ordinary descendants and all stored rows below agree with it |
| Selection.UnseparatedAgrees | src/ubackup/selection.py:246-320 | an ordinary descendant with no row between agrees with the directory if and only if the directory resolves as it is inherited |
| Selection.SettledExactly | src/ubackup/selection.py:271-320 | which directories resolve as they are inherited, read off the rows above and the origin of the decision |
| SelectionExamples.GlobExclusionLeaks | src/ubackup/gui/main_window.py:2103-2110 | a concrete selected path that the generated list excludes, because a manual exclusion is named "*" |
| SelectionExamples.BracketInclusionLeaks | src/ubackup/profiles.py:22 | ticking "/x[1].tmp" under the shipped rule "*.tmp": the path is selected, no manual exclusion matches, and the generated list excludes it |
| SelectionExamples.BareIncludeIsNotUniform | src/ubackup/gui/main_window.py:999-1017 | a concrete bare inclusion whose directory is selected, shows no mismatch, and whose child is not selected |
| Framing.BigEndianRoundTrip | src/ubackup/privileged/protocol.py:140-165 | a 32-bit length survives its four-byte big-endian header |
| Framing.HeaderRoundTrip | src/ubackup/privileged/protocol.py:547-560 | every four-byte header is the header of the length it denotes |
| Framing.ReadFrame | src/ubackup/privileged/protocol.py:216-252 | reading from a pipe with arbitrarily short reads yields exactly the next frame's payload or the exact error, and takes no byte beyond the frame |
| StartupParser.RunConcat | src/ubackup/privileged/protocol.py:547-575 | feeding a then b gives the frames, the state and the error of feeding a + b |
| StartupParser.StartupFrameParser.Feed | src/ubackup/privileged/protocol.py:547-575 | the loop over buffer and input refines the byte-by-byte specification and never retains more than a header and 64 KiB |
| StartupParser.RunFrames | src/ubackup/privileged/protocol.py:547-575 | the frames of a payload list, whatever follows, are checked one by one and in order |
| StartupParser.AcceptedIsFramed | src/ubackup/privileged/protocol.py:547-575 | every accepted byte stream is the frames of some payloads followed by an unfinished rest, which is what the buffer holds |
| StartupLanguage.PayloadsAreValues | src/ubackup/privileged/protocol.py:565-575 | checking payloads one by one succeeds if and only if all decode and the values pass, with the same frames and state |
| StartupLanguage.StreamAccepted | src/ubackup/privileged/protocol.py:547-657 | feeding the frames of payloads and an unfinished rest succeeds if and only if they decode to a sentence; the frames returned are that sentence, the buffer is the rest, and the flags say where in the language the parser stands |
| StartupLanguage.AcceptedExactly | src/ubackup/privileged/protocol.py:547-657 | any bytes are accepted if and only if they are the frames of a sentence and an unfinished rest: kinds are a prefix of (error or ready result* (done or error)) and then navigation, each value is well formed, and one valid session id pins them all |
| StartupLanguage.OrderErrors | src/ubackup/privileged/protocol.py:581-657 | an order error is reported if and only if a known kind breaks the language, and the other codes only for values that are in order |
| Base64.RoundTrip | src/ubackup/privileged/protocol.py:791-808 | decoding an encoded chunk returns its bytes, for every length and padding |
| Base64.DecodedReencodes | src/ubackup/privileged/protocol.py:830-838 | an accepted text re-encodes to itself if and only if its spare bits are zero |
| Base64.DecodesExactly | src/ubackup/privileged/protocol.py:830-838 | a text decodes if and only if it is whole quanta of the alphabet in which at most the last two characters are padding |
| Base64.Alphabet | src/ubackup/privileged/protocol.py:801 | the digits are A to Z, a to z, 0 to 9, plus and slash |
| Base64.StandardVectors | src/ubackup/privileged/protocol.py:801 | the test vectors of section 10 of RFC 4648 for one to four bytes |
| SessionTransport.EncodeFrames | src/ubackup/privileged/protocol.py:780-808 | the chunking loop succeeds exactly for messages of 1 byte to 64 MiB, and yields the message itself or its chunk envelopes |
| SessionTransport.ChunksJoin | src/ubackup/privileged/protocol.py:787-788 | the chunks of a message concatenate to the message, and all but the last are full |
| SessionTransport.FrameCounts | src/ubackup/privileged/protocol.py:50-62 | a request of up to 128 KiB and a reply of up to 256 KiB is one frame, and a longer one is as many chunks of half that size as it needs |
| SessionTransport.FramesFit | src/ubackup/privileged/protocol.py:50-62 | the too-many-chunks error is unreachable and every envelope fits its frame limit, for requests and for responses |
| SessionTransport.EnvelopeFits | src/ubackup/privileged/protocol.py:793-807 | base64 of a full chunk with the fixed text around it stays below the frame limit |
| SessionTransport.Receiver.DecodeChunk | src/ubackup/privileged/protocol.py:811-845 | an accepted chunk has an index below a legal count, 1 to the maximum number of bytes, and the expected identity |
| SessionTransport.Receiver.ChunkExactly | src/ubackup/privileged/protocol.py:811-845 | what a frame must be to carry a chunk: its kind, its session, the awaited request, all bounds and the base64 of the data |
| SessionTransport.Receiver.RefusalCodes | src/ubackup/privileged/protocol.py:811-845 | which of these each code of a refusal says is wrong |
| SessionTransport.ForeignFramesFail | src/ubackup/privileged/protocol.py:811-845 | frames built for another session, direction or request are refused from the first one on |
| SessionTransport.Receiver.Reassemble | src/ubackup/privileged/startup.py:231-272 | the reading loop returns exactly the data of a completed run, or the error of the first frame that breaks it |
| SessionTransport.Receiver.AcceptedRun | src/ubackup/privileged/startup.py:245-271 | frames are absorbed if and only if they are chunks 0, 1, 2, ... in order with one identity and one count within the aggregate limit |
| SessionTransport.ReassemblyRoundTrip | src/ubackup/privilege_broker.py:373-452 | the frames of a large message reassemble to exactly its bytes, and no proper prefix of them completes |
| SessionCodec.TextInjective | src/ubackup/privileged/protocol.py:793-807 | no two envelopes that are ever built have the same compact JSON text |
| SessionCodec.JsonCodecIsLawful | src/ubackup/privileged/protocol.py:793-807 | that text is a codec with the length and the injectivity the transport relies on |
| SessionCodec.LawfulWorldExists | src/ubackup/privileged/startup.py:358-427 | sessions satisfying every assumption of the safety theorems exist, with a valid request and reply |
| SessionSafety.RunKeepsInv | src/ubackup/privileged/startup.py:275-351 | every state of every run of broker and helper satisfies the two-process invariant, also when a cancel frame lands anywhere among the bytes of a request, gets out only in part, or is consumed in part by a monitor that is then stopped |
| SessionSplice.SpliceIsPoison | src/ubackup/privilege_broker.py:484-491 | a cancel frame inside a frame of a request makes bytes of which the helper accepts no frame |
| SessionSplice.DoomedNext | src/ubackup/privilege_broker.py:359-383 | whatever happens next, the helper of such a session serves no request any more |
| SessionDropped.RequestedExactly | src/ubackup/privileged/runtime.py:456-486 | the monitor of the session acts as soon as what it has can no longer become a control frame or is one |
| SessionDropped.DroppedNext | src/ubackup/privileged/runtime.py:408-416 | a helper whose monitor has taken a part of the cancel frame with it completes no further frame, whatever happens next |
| SessionSafety.MonitorSeesOnlyCancel | src/ubackup/privileged/startup.py:304-330 | whenever the monitor reads the helper's input, all it has consumed or can still get is one cancel frame after a cancellation, up to what never got out, and otherwise nothing; it requests a cancellation if and only if it has consumed the whole frame |
| SessionSafety.StaysInStep | src/ubackup/privilege_broker.py:373-452 | without cancellation nobody meets a protocol error, and between requests everything served was returned and no byte is left in any pipe or buffer |
| SessionSafety.NeverStuck | src/ubackup/privileged/startup.py:275-351 | without cancellation, and with pipes of any capacity, some byte or decision can move unless the broker is idle or the helper is working |
| SessionProgress.EveryScheduleEnds | src/ubackup/privileged/startup.py:358-427 | without cancellation every schedule of such moves is at most as long as a measure of its first state, and a schedule that cannot go on ends with the broker idle or the helper working |
| SessionProgress.RequestArrives | src/ubackup/privilege_broker.py:359-383 | however the pipes are scheduled, a request that was sent ends up at the helper, which is then free to report progress and to answer |
| SessionProgress.ReplyReturns | src/ubackup/privilege_broker.py:387-452 | however the pipes are scheduled, a reply comes back: the broker is idle and has returned every exchange, the last with the helper's progress and reply |
| SessionProgress.CancelledHelperEnds | src/ubackup/privileged/runtime.py:193-196 | once the broker has cancelled and closes, every schedule ends after boundedly many moves with the helper ended: from every phase, over pipes of any size, with a request answered by an error on the way, and also when the cancel frame has cut a request, got out in part or not at all |
| SessionProgress.FrameAloneEnds | src/ubackup/privilege_broker.py:484-491 | the cancel frame alone ends the helper: short of the end of file a schedule stops only with the helper ended, unless the frame did not get out whole, cut a request, or the monitor of a phase that was over took along exactly its first byte or all but at most three |
| SessionProgress.LeftWaiting | src/ubackup/privileged/runtime.py:408-416 | a helper that reads, or works without having been told, stays where it is once all bytes are delivered and the pipe is open |
| SessionRace.CancelCanBeMissed | src/ubackup/privileged/startup.py:383-404 | in every session, whatever the messages, there is a run in which the whole cancel frame is sent and consumed and the helper waits for the start command, with nothing left to happen before the pipe is closed |
| SessionRefusal.OwnReplyOnly | src/ubackup/privilege_broker.py:387-452 | whatever frames arrive, the broker returns only a reply that names its request, as one frame that interrupts no chunk run, or as one chunk run |
| SessionRefusal.OwnRequestOnly | src/ubackup/privileged/startup.py:231-272 | whatever frames arrive, the helper serves only what decodes to the request it runs, as the first frame it reads or as one chunk run of its session |
| SessionRefusal.CommandsExactly | src/ubackup/privileged/startup.py:355-420 | before the session the helper goes on from a command if and only if it is the one its phase waits for, and otherwise ends |
| SessionRefusal.RunInTurn | src/ubackup/privileged/startup.py:350-351 | for arbitrary bytes, either side reads only when it has written all it had to write |
| SessionBounds.BoundedNext | src/ubackup/privileged/protocol.py:216-252 | neither side ever holds more than a header and one frame of its phase, whatever bytes are in the pipes |
| ControlMonitor.Monitor.Run | src/ubackup/privileged/runtime.py:418-486 | however the stream is cut into reads and polls, a run to end of file escalates to cancelled if the stream is empty or exactly one valid cancel frame, and to protocol_error otherwise |
| ControlMonitor.Monitor.ReadBatch | src/ubackup/privileged/runtime.py:432-450 | an overfull buffer already rules out every continuation that would be a plain cancellation |
| ControlMonitor.Monitor.Parse | src/ubackup/privileged/runtime.py:456-486 | the parsing loop stops the monitor only on a stream that is no single valid frame, whatever follows |
| ControlMonitor.WholeFrame | src/ubackup/privileged/runtime.py:471-483 | a complete frame with anything after it, or an invalid one, cannot be continued to a plain cancellation |
| Cancellation.Runtime.RegisterChildGroup | src/ubackup/privileged/runtime.py:132-143 | a group is refused exactly if it is not isolated or another is active, and terminated and forgotten at once exactly if a cancellation was requested before |
| Cancellation.Runtime.RequestCancellation | src/ubackup/privileged/runtime.py:171-187 | the code becomes the more severe of the two, the flag is set and the active group, if any, is signalled |
| Cancellation.EscalateIsMax | src/ubackup/privileged/runtime.py:176-182 | the two-way test on codes computes a maximum |
| Cancellation.NoChildEscapes | src/ubackup/privileged/runtime.py:132-143 | in every interleaving at most one group is live, after a request each live group has been signalled or is about to be by a thread bound to do it, and a group whose registration was refused is never signalled |
| Cancellation.LateChildIsTerminating | src/ubackup/privileged/runtime.py:137-143 | a group registered after the request is live only while it is being terminated |
| Cancellation.CancellationReaches | src/ubackup/privileged/runtime.py:171-187 | from every reachable state a cancellation can be requested, and then the signals that threads already owe, and nothing else, reach every group that was live |
| Cancellation.ChildLeaves | src/ubackup/privileged/runtime.py:146-150 | a live group that is not being terminated can be unregistered in every reachable state, and then no group is active |
| Cancellation.CodeIsSeverest | src/ubackup/privileged/runtime.py:171-187 | the final code is the most severe one requested under cancelled < timeout < protocol_error, regardless of order |
| SourceSplit.Splitter.WalkBranch | src/ubackup/privileged/backup.py:213-236 | the nested walk appends to the shared list what the specification yields, and fails when it fails |
| SourceSplit.SplitSource | src/ubackup/privileged/backup.py:192-239 | one source is rejected, dropped, kept or split as specified |
| SourceSplit.EffectiveFilesystemSources | src/ubackup/privileged/backup.py:242-255 | the nested loops fold the split over the backup root and the structural exclusions and drop repetitions |
| SourceSplit.SortNamesSorted | src/ubackup/privileged/backup.py:218-220 | the entries of a directory are walked in code point order |
| SplitTheorems.BranchFails | src/ubackup/privileged/backup.py:218-222 | the walk fails if and only if it reaches a directory on the way to the root that cannot be listed |
| SplitTheorems.ClearIsKept | src/ubackup/privileged/backup.py:229-235 | an entry is kept if and only if its real path is not in the root and its text names no hard system path |
| SplitTheorems.BranchMembers | src/ubackup/privileged/backup.py:223-236 | the outputs are exactly the listed siblings of the way to the root that are no hard system paths and do not resolve into the root |
| SplitTheorems.SplitFails | src/ubackup/privileged/backup.py:192-239 | one split fails if and only if its source is the backup root, or a directory on the way cannot be listed |
| SplitTheorems.SplitPartitions | src/ubackup/privileged/backup.py:192-239 | outputs do not nest, neither contain the root nor lie in it, and cover an existing path of the source if and only if it is off the way to the root, outside the root and not dropped |
| SplitTheorems.NoOutputContains | src/ubackup/privileged/backup.py:242-255 | after the fold no output contains any protected root, and each lies in an original source |
| SplitTheorems.FoldOutputs | src/ubackup/privileged/backup.py:242-255 | each output is an original source, or a walk around a root made it and it neither resolves into that root nor is a hard system path; an original source is an output if and only if it contains no protected root |
| SplitTheorems.FoldCovers | src/ubackup/privileged/backup.py:242-255 | a path that survives each split stays covered, and nothing becomes covered that was not |
| SplitTheorems.FoldNonNested | src/ubackup/privileged/backup.py:242-255 | sources that do not nest still do not after the fold |
| SplitTheorems.FoldInside | src/ubackup/privileged/backup.py:242-255 | strictly inside a root that holds no other root, the fold keeps exactly the original sources |
| SplitTheorems.AdmittedOutputs | src/ubackup/privileged/backup.py:268-291 | with an admitted backup root and "/etc" as structural exclusion, every output is apart from the backup root, no output that is not an original source resolves into it or is a hard system path, and inside "/etc" the outputs are exactly the sources strictly inside it |
| SplitTheorems.AdmittedFails | src/ubackup/privileged/backup.py:192-255 | the split of all sources fails if and only if the backup root is a source or a directory between a source and the backup root cannot be listed |
| SplitTheorems.AdmittedRoot | src/ubackup/privileged/configure.py:105-108 | an admitted backup root is neither "/" nor at or below "/etc" |
| SplitTheorems.SourceInsideEtc | src/ubackup/privileged/backup.py:268-291 | the source "/etc/x" is an output although "/etc" is excluded structurally |
| SplitTheorems.EffectiveSources | src/ubackup/privileged/backup.py:242-255 | the list handed to the backup contains no protected root, stays within the sources, adds only entries that do not resolve into the root they were found beside, does not nest and loses no surviving path |
| SizeScanner.CacheDB.PutFsMany | src/ubackup/cache.py:186-219 | a batch is upserted row by row in order, later rows winning |
| SizeScanner.SizeScanner.QueueCacheRow | src/ubackup/fs_scan.py:155-166 | a row joins the log once, whether it is queued or flushed, and the 512th queued row flushes the queue |
| SizeScanner.SizeScanner.FlushCacheRows | src/ubackup/fs_scan.py:168-172 | flushing moves the queued rows to the table and changes the log in no way |
| SizeScanner.SizeScanner.ExcludedByProfile | src/ubackup/fs_scan.py:85-90 | the loop over compiled patterns decides as last match wins |
| SizeScanner.SizeScanner.ScanRecursive | src/ubackup/fs_scan.py:202-327 | the traversal returns and logs what the recursive specification says, and its running byte and item counts grow by the physical totals |
| SizeScanner.SizeScanner.Scan | src/ubackup/fs_scan.py:92-153 | a scan answers from the cache or from the tree as specified, and hands each row of the traversal to the table exactly once |
| ScanTheorems.VisitIsTally | src/ubackup/fs_scan.py:202-327 | the recursion computes a flat sum over the leaves of the tree, in which a leaf counts if nothing on the way to it is excluded and no tagged directory drops it |
| ScanTheorems.TallySums | src/ubackup/fs_scan.py:213-219 | the flat sum adds the size and one item of each leaf, to the effective totals if it counts and to the physical ones if it is reached |
| ScanTheorems.ScanIsFlatSum | src/ubackup/fs_scan.py:92-153 | a forced scan returns that flat sum |
| ScanTheorems.PhysicalTotals | src/ubackup/fs_scan.py:213-219 | effective never exceeds total, nothing disabled counts, and the totals do not depend on the patterns |
| ScanCache.VisitedOnce | src/ubackup/fs_scan.py:155-172 | every visited path has exactly one row, written once, with the totals of its own visit |
| ScanCache.EveryDirectoryAddsUp | src/ubackup/fs_scan.py:244-327 | in everything a scan writes, the row of each visited directory is the sum of the rows of its direct children |
| ScanCache.FreshScan | src/ubackup/fs_scan.py:92-153 | a scan, forced or not, that finds no row with totals answers with the flat sum and writes the rows of a forced scan; a row with totals answers by itself, a hard path with nothing |
| ScanCache.SecondScan | src/ubackup/fs_scan.py:112-119 | scanning again at once answers the same and writes nothing |
| ScanCache.ReachedEnabled | src/ubackup/fs_scan.py:244-300 | whether a path counts where it is visited can be read off the tree and the patterns |
| ScanCache.CacheCoherence | src/ubackup/fs_scan.py:112-119 | after a forced scan, an ordinary scan of a visited path answers as a forced scan of it if and only if the path is itself excluded, or nothing at or above it is excluded and no tag drops it, or no file below it counts |
| ScanExamples.TmpDirectoryIsStale | src/ubackup/profiles.py:22 | under the shipped rule "*.tmp" a directory below "/x.tmp" is answered from the cache with another size than a scan of it gives |
| ScanCache.CachedAnswersStand | src/ubackup/fs_scan.py:112-119 | with a downward-closed profile and no tag that drops the path, the cached answer is always the fresh one |
| ScanCache.SubtreeProfileIsClosed | src/ubackup/fs_scan.py:57-83 | profiles of subtree and segment patterns without re-inclusion are downward closed |
| Listing.Sort | src/ubackup/privileged/filesystem_navigation.py:71-72 | sorting permutes the entries |
| Listing.SortSorted | src/ubackup/privileged/filesystem_navigation.py:71-72 | the reference order is sorted by directory flag, folded name and name |
| Listing.SortPresents | src/ubackup/privileged/filesystem_navigation.py:64-72 | directories come first, then the folded names and the names by their first differing code point or as proper beginnings, said without the comparison that sorts |
| Listing.SortedUnique | src/ubackup/privileged/filesystem_navigation.py:71-72 | with distinct names there is only one sorted permutation |
| Listing.HeapPush | src/ubackup/privileged/filesystem_navigation.py:66-67 | pushing keeps the heap order and adds exactly the entry |
| Listing.HeapReplace | src/ubackup/privileged/filesystem_navigation.py:68-69 | replacing keeps the heap order and exchanges exactly the largest entry |
| Listing.RootIsLargest | src/ubackup/privileged/filesystem_navigation.py:19-21 | under the reversed comparison the root is the largest entry |
| Listing.KeepFirst | src/ubackup/restic_engine.py:496-503 | for every arrival order the bounded heap, sorted, is the beginning of the sorted whole; the index error on an empty heap happens exactly for a bound of zero and at least one entry |
| Listing.Children | src/ubackup/privileged/filesystem_navigation.py:44-81 | the bounded listing is the slice of the sorted directory, in the order shown, or the schema error exactly for an illegal window |
| Listing.ListDirectory | src/ubackup/restic_engine.py:459-523 | the streamed listing is the slice of the sorted directory, in the order shown, and each error is given with the arguments for which it occurs |
| Listing.UnpaginatedListing | src/ubackup/restic_engine.py:519-523 | without a limit, a directory of more than 10000 entries is cut to its first 10000 on the plain call and refused exactly if an offset or a probe is given; a smaller one is listed from the offset on |
| Listing.PagesJoin | src/ubackup/restic_engine.py:473-523 | consecutive pages are the page of both lengths, and a probe adds an entry if and only if there is a further page |
| Paging.Emit | src/ubackup/privileged/startup.py:75-98 | the nested loops send the pages of the greedy specification and stop with its error |
| Paging.GrowFits | src/ubackup/privileged/startup.py:83-91 | a page is maximal: it ends at the page size, at the last record, or before a record whose probe would not fit |
| Paging.EmitConserves | src/ubackup/privileged/startup.py:75-98 | pages carry the records in order, with contiguous offsets and one final page; on an error a contiguous beginning without a final page was sent |
| Paging.EmitIsGreedy | src/ubackup/privileged/startup.py:75-98 | every page but the last could not have taken one more record, and emission stops exactly at a record that fits no frame of its own or at a last page whose final frame is too long |
| Paging.EmitSucceeds | src/ubackup/privileged/startup.py:75-98 | emission succeeds if and only if every record fits a frame of its own and the last greedy page still fits as the final frame |
| Paging.LongStreamsFinish | src/ubackup/privileged/startup.py:92-95 | from a hundred records on, fitting records are enough |
| Paging.FinalFrameGrowth | src/ubackup/privileged/startup.py:92-95 | the final frame is its probe plus three bytes minus the digits of the next offset |
| PageText.FrameTextLength | src/ubackup/privileged/protocol.py:660-670 | the compact JSON text of a result frame has the length that paging counts with |
| PageText.SentFramesFit | src/ubackup/privileged/protocol.py:660-670 | the text of every frame that is sent is not empty and has at most 65536 bytes |
| Paging.ProbeIsNotEnough | src/ubackup/privileged/startup.py:83-95 | a record whose probe exactly fills a frame is refused as the final page |
| Paging.EmitRoot | src/ubackup/privileged/startup.py:101-122 | listing the root page by page sends the declared pages up to the first that does not fit; the branch for a full offset is unreachable |
| Paging.RootStream | src/ubackup/privileged/startup.py:101-122 | the root pages carry the first 10000 sorted entries, 500 to a page, end in one final page, flag truncation if and only if there are more, and are sent up to the first that does not fit |
| LineDrain.LinesPartition | src/ubackup/restic_engine.py:311-343 | the lines of a stream concatenate to it, each ends at its first newline, and only the last may lack it |
| LineDrain.ShortExactly | src/ubackup/restic_engine.py:318-338 | exactly the lines of at most a mebibyte are kept |
| LineDrain.StdoutDrain.Chunk | src/ubackup/restic_engine.py:318-338 | after every chunk the reader's state is a function of the stream so far and at most the limit is pending |
| LineDrain.DrainStdout | src/ubackup/restic_engine.py:311-343 | for every chunking the lines of at most the limit are delivered in order, and one error is recorded for each longer line |
| Provisioning.FilesystemOps.EnsureDirectory | src/ubackup/privileged/configure.py:398-437 | a directory is ensured exactly if it is safe or can be made, by exactly the listed operations, and an error changes nothing |
| Provisioning.FilesystemOps.PrepareBackupRoot | src/ubackup/privileged/configure.py:318-361 | only the absent default root below a trusted "/" is created, and then it is admitted |
| Provisioning.FilesystemOps.Provision | src/ubackup/privileged/configure.py:487-552 | provisioning an admitted root fails exactly if preflight or revalidation does, then changing nothing, and otherwise performs exactly the listed operations |
| Provisioning.FilesystemOps.ProvisionUserRuntime | src/ubackup/privileged/configure.py:487-552 | the whole operation, with its uid, admission and default-root cases |
| AdmissionTheorems.AdmittedExactly | src/ubackup/privileged/configure.py:198-316 | a backup root is admitted if and only if it is no system path, every component is a directory of root's that others cannot write, and outside the default others may pass and the approval marker is right; and which error is found first |
| AdmissionTheorems.RevalidateExactly | src/ubackup/privileged/configure.py:281-292 | an admission revalidates if and only if admitting the root again gives the same one |
| AdmissionTheorems.RevalidatedIsSame | src/ubackup/privileged/configure.py:281-292 | two admissions are the same if and only if every component and the marker have kept their identity |
| AdmissionTheorems.RefusedExactly | src/ubackup/privileged/configure.py:398-437 | provisioning refuses a tree if and only if a parent exists and is not secure or a directory of the user exists and is not the user's |
| AdmissionTheorems.PreparedExactly | src/ubackup/privileged/configure.py:318-361 | preparing creates nothing but the absent default root below a secure "/", which is then secure and admitted |
| Provisioning.TargetsOrdered | src/ubackup/paths.py:113-126 | the targets are distinct and each comes after its parent |
| Provisioning.Progress | src/ubackup/privileged/configure.py:487-552 | once preflight passes, every operation of the run is possible: no unsafe directory and no missing parent is met |
| ProvisionTheorems.ProvisionedTree | src/ubackup/privileged/configure.py:487-552 | a finished run leaves every user directory caller-owned 0700 and both parents root-owned 0711; existing directories keep their identity and nothing else is different |
| ProvisionTheorems.SecondRun | src/ubackup/privileged/configure.py:487-552 | a second run passes all checks again and changes nothing |
| ProvisionTheorems.RevalidateStable | src/ubackup/privileged/configure.py:281-292 | the admission still revalidates after any beginning of a run |
| ProvisionTheorems.InterruptedRun | src/ubackup/privileged/configure.py:398-437 | after any number of operations a rerun is accepted, except exactly when the last one made a user directory that still belongs to root |
| ProvisionTheorems.NeverOpen | src/ubackup/privileged/configure.py:398-437 | after any number of operations, whatever the umask, nobody but the owner can read or write a directory the run has made, or enter one of the user's |
| ProvisionTheorems.MadeMode | src/ubackup/privileged/configure.py:398-437 | between mkdir and chmod a directory is root's and has the final mode without the bits of the umask |

## Left out

- Selection.SelectedNeverExcluded: needs literal policy rows and rules whose pattern is not ambiguous, since on the others the two matchers differ; without literal rows `Selection.ExcludedExactly` says what is excluded.
- Selection.ClosedDirectoryUniform: speaks of ordinary descendants, which are not hard excluded and matched by no rule.
- ScanCache.CachedAnswersStand: is the sufficient condition; the exact one is `ScanCache.CacheCoherence`.
- Cancellation.NoChildEscapes: a group is live from its registration until it is unregistered; the process of a refused registration is known only as refused, and `_stream_process` leaves such a process running.
- SessionProgress.RequestArrives: the work of the helper itself, and how often it reports progress, is not bounded.
- Listing.KeepFirst: needs distinct names, which the entries of one directory have.
- User interface, timers, subprocesses, signals, Restic, APT, Snap and Flatpak calls, SQLite, clocks and `select`: they are parameters, abstract state or a finite map.
- Deadlines and idle timeouts are modelled as the timeout code of a cancellation, as the bytes of a request or of a cancel frame that never get out, and as a progress message that a cancellation cuts off; other aborted writes are not.
- After a cancellation: the broker throws away what the helper still writes, and the error frame with which a cancelled startup ends is left out.
- Globs.Bracket: speaks of one bracket expression; what the whole pattern matches follows construct by construct.
- PatternMeaning.LiteralExactly: patterns with glob characters are `Globs`' concern.
- JSON grammar and UUID text: decoders are arbitrary functions and ids are numbers; only the text of chunk envelopes is concrete.
- Field-by-field payload validation: a decoded startup value says whether its fields, operation and types are as demanded.
- The legacy navigation exchange inside `run_session`, and the helper's missing comparison of the inner request id with the chunk envelope's: the model serves the typed requests only.
- Backup state, discovery and review fields of the resolver's decision, rule categories and paths beginning with "//".
- Symbolic links inside `is_root_compat_symlink`: which aliases are links is a parameter.
- What lies below "/swapfile" if it is a directory: the resolver and the patterns differ there, and the selection theorems exclude it.
- Modification times, inodes, devices and scan times of cache rows; the scan key is the pattern list itself, as if SHA-256 were injective.
- Progress timing and checkpoints of the scanner: its running byte and item counts are modelled.
- CPython's `heapq` moves a hole to a leaf before sifting up: the model sifts down with an early stop, which keeps the same contents and heap order.
- `list.sort` and `sorted` are an insertion sort; with distinct names every sort gives the same result (`Listing.SortedUnique`).
- Exceptions raised by the line callback and UTF-8 decoding in `drain_stdout`.
- The record fields of a directory listing and the stat calls that fill them.
- A directory that changes while `_emit_root` lists it page by page, or between a forced scan and a later one.
- Operating system errors other than those in the model, group ids and hard links in provisioning; a `mkdir` race on the default root.
- Reuse of process group ids, and `reset_cancellation` between the requests of a session.
