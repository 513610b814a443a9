# mcp-lsp: a verified model of the language-server bridge

This project models the core of `pkg/lsp` of mcp-lsp in Dafny and proves what that core
keeps: how text edits are placed and spliced, what a workspace edit does to a file tree,
how diagnostics readers are woken, how sessions are spawned and replaced, how the
server's view of open documents follows the client's, and how language names resolve.

Loops, maps and slices that the Go code updates in place are methods with loop
invariants, or classes with `modifies` clauses; each is proved equal to a specification
function, and the theorems are about those functions. Concurrency (the diagnostics
store's condition variable, session callers, apply-edit windows) is modelled as step
relations whose theorems hold for every interleaving.

| file | what it holds |
|---|---|
| `Common.dfy`, `Bags.dfy`, `Sorting.dfy`, `Strings.dfy` | shared datatypes, permutations, sorting by a total order, trimming and lower-casing |
| `Utf8.dfy` | bytes, the decoder of Go's `unicode/utf8`, and RFC 3629 well-formedness |
| `Positions.dfy`, `Utf16.dfy` | LSP (line, UTF-16 column) positions against byte offsets, and against RFC 2781 and the lines of a text |
| `TextEdits.dfy`, `Patching.dfy` | what an edit list means; sorting and splicing against that meaning |
| `EditEngine.dfy`, `EditOrder.dfy`, `EditLaws.dfy` | the engine's loops; length, well-formedness, order of the list; what one edit replaces and what is refused |
| `Paths.dfy`, `FileTree.dfy` | cleaned paths, the workspace-root test, a file tree and its system calls |
| `WorkspaceEdits.dfy`, `ApplyTheorems.dfy`, `OutsideRoot.dfy`, `Applier.dfy`, `ApplyLaws.dfy` | the edit interpreter: specification, theorems, when a run reaches outside its root, the imperative program, and what each change and each edit gives its caller |
| `Wire.dfy`, `RoundTrip.dfy`, `WireLaws.dfy` | the protocol form of an edit, both conversions, the round trip, field by field |
| `ApplyPolicy.dfy` | server-initiated edits and the policy window |
| `DiagnosticsStore.dfy`, `Settle.dfy`, `SettleTheorems.dfy`, `ReaderLaws.dfy` | the diagnostics cache, its wait protocol, and how a reader's outcome answers its call |
| `DocumentSync.dfy`, `SyncLaws.dfy` | `didOpen`, `didChange`, `didClose` and a model of the server's side |
| `Lifecycle.dfy`, `SessionLaws.dfy`, `Manager.dfy` | sessions, callers, starts and deaths |
| `Languages.dfy`, `RegistryBuild.dfy`, `Resolver.dfy`, `Catalog.dfy`, `LanguageLaws.dfy` | the language registry, its indexes, the resolvers, the built-in catalog, name by name |

## Findings

The proofs pin down several places where the code and its documentation, or the code and
LSP 3.17, differ. The model follows the code.

- Insertions at one offset come out in reverse list order (`EditOrder.ListOrderBroken`);
  LSP 3.17, section "TextEdit[]", asks for list order. `EditOrder.ListOrderExactly` says
  for which lists the two agree.
- A rename between nested paths can fail after it has already removed or created
  something: with `overwrite`, renaming a file to itself or to one of its own ancestors
  deletes it (`ApplyTheorems.RenameUpwardsDeletes`); renaming a path to a place below
  itself leaves the directories made for it (`ApplyTheorems.RenameDownwardsMakesDirs`).
  `ApplyTheorems.FailureTearsExactly` gives the exact condition.
- A create can change the tree outside the workspace root: when the directory the root
  belongs in is missing, writing the file makes it (`OutsideRoot.CreateReachesOutside`).
  `OutsideRoot.OutsideChangesExactly` says for which runs that happens, and
  `OutsideRoot.OutsideIsSafeExactly` what to check beforehand: the root's parent exists, or
  a file stands above the root.
- The comment at `pkg/lsp/store.go:118-119` says a broadcast on server death returns the
  latest snapshot. It does not: the loop re-checks and parks again
  (`SettleTheorems.BroadcastsReleaseNobody`).
- An undelivered `didClose` leaves the document open on the server, and a later
  `didOpen` for it is a protocol error (`DocumentSync.ReopenBreaks`); so is the change
  after version 2^31 - 1 (`DocumentSync.TypingBreaks`). `DocumentSync.RunMirrorsExactly`
  shows there is no third way.
- Closing one of two overlapping apply-edit windows disables the other
  (`ApplyPolicy.OverlapDisables`).
- A later spec of a language always replaces its language ID, by the language's name when
  it gives none: `addSpec` fills in a missing ID before the merge, so the test for a
  missing one in `mergeLanguageSpec` never fails (`LanguageLaws.LaterSpecWins`).
- The comment on `CurrentVersions` says versions are checked when the map is non-empty;
  the code checks when it is non-nil, so an empty non-nil map rejects every versioned
  change that has edits (`ApplyTheorems.EmptyVersionsRefuse`). The policy path turns empty
  maps into absent ones first.

## Model

| member | source | states |
|---|---|---|
| Utf8.DecodesExactlyWellFormed | pkg/lsp/edit_apply.go:309-326 | the decoder the column walk uses meets no ill-formed sequence exactly on the texts that encode scalar values by RFC 3629 |
| Utf8.DecodeAfterEncode | pkg/lsp/edit_apply.go:310 | decoding an encoded scalar, whatever follows it, gives that scalar back and its length |
| Utf8.EncodeAfterDecode | pkg/lsp/edit_apply.go:310 | a well-formed rune the decoder accepts is a scalar value and re-encodes to the very bytes it was read from |
| Positions.ColumnExact | pkg/lsp/edit_apply.go:299-332 | a column resolves to a byte offset exactly when that offset is a rune boundary with that many UTF-16 units before it |
| Positions.ColumnErrors | pkg/lsp/edit_apply.go:299-332 | the two errors exactly: past the UTF-16 length of the line, or no boundary at that column (inside a surrogate pair) |
| Positions.FindColumn | pkg/lsp/edit_apply.go:299-332 | the byte-walking loop computes the column map, negative columns being an error |
| Positions.FindByte | pkg/lsp/edit_apply.go:270-278 | the first index of a byte, or -1 when there is none |
| Positions.LineStartExact | pkg/lsp/edit_apply.go:267-276 | a line starts where a newline (or nothing) precedes and exactly that many newlines have passed |
| Positions.FindOffset | pkg/lsp/edit_apply.go:262-297 | the line-skipping loop computes the position map, with its error cases |
| Positions.PositionExact | pkg/lsp/edit_apply.go:262-297 | a position resolves to an offset exactly when the offset is addressable and line count and UTF-16 prefix length, read off the offset alone, are that position: map and inverse |
| Positions.PositionsIncrease | pkg/lsp/edit_apply.go:262-297 | the position map is strictly increasing in lexicographic order, hence injective |
| Positions.NeverInsideLineEnd | pkg/lsp/edit_apply.go:287-290 | no position lands between `\r` and `\n`, nor past the text |
| Positions.PositionsSplitWellFormed | pkg/lsp/edit_apply.go:262-332 | in well-formed UTF-8 no position lands inside a code point |
| Utf16.LengthIsUtf16 | pkg/lsp/edit_apply.go:307-326 | the column of a text of scalar values is the length of its UTF-16 encoding by section 2.1 of RFC 2781 |
| Utf16.ColumnOfPrefix | pkg/lsp/edit_apply.go:299-332 | after any number of characters the UTF-16 length of them resolves to the UTF-8 length of them |
| Utf16.ColumnInsideSurrogates | pkg/lsp/edit_apply.go:319-321 | between the two surrogates of a character the column is refused as inside it |
| Utf16.ColumnPastEnd | pkg/lsp/edit_apply.go:328-330 | a column past the UTF-16 length of the line is refused as out of range |
| Utf16.IllFormedExactly | pkg/lsp/edit_apply.go:310-313 | the decoder rejects a byte exactly when no scalar's encoding starts there |
| Utf16.StrayByteColumn | pkg/lsp/edit_apply.go:310-318 | a rejected byte is one byte and one column wide |
| Utf16.FirstLine | pkg/lsp/edit_apply.go:278-296 | a position in the first line is a column of what stands before its `\n`, its `\r\n`, or the end of the text |
| Utf16.LaterLine | pkg/lsp/edit_apply.go:267-276 | a position in a later line is one in the text after the first `\n`, that much further on |
| Utf16.NoSuchLine | pkg/lsp/edit_apply.go:263-273 | negative lines and columns, and lines past the last, are refused each in its own way |
| TextEdits.ResolvedInText | pkg/lsp/edit_apply.go:217-238 | every resolved range is ordered and inside the text, one per edit, in list order |
| TextEdits.StableDescendingSorts | pkg/lsp/edit_apply.go:197-202 | the splice order has larger starts first, then larger ends |
| TextEdits.StableDescendingKeeps | pkg/lsp/edit_apply.go:197-202 | and keeps the list order of edits with one range |
| TextEdits.NeighboursDecide | pkg/lsp/edit_apply.go:245-258 | in a sorted list no neighbours overlap iff no two ranges overlap, touching allowed |
| TextEdits.DisjointIsOrderFree | pkg/lsp/edit_apply.go:240-260 | disjointness depends on the bag of ranges only, so ties of the unstable sort cannot matter |
| EditEngine.VerifyNonOverlapping | pkg/lsp/edit_apply.go:240-260 | the adjacent-pairs check over any sorted permutation accepts exactly the pairwise disjoint lists |
| EditEngine.ResolveRanges | pkg/lsp/edit_apply.go:217-238 | ranges in list order, the first failing edit's error, or the overlap error |
| EditEngine.SpliceAll | pkg/lsp/edit_apply.go:204-208 | back-to-front splicing never leaves the text and yields the left-to-right rendering |
| EditEngine.ApplyTextEdits | pkg/lsp/edit_apply.go:190-209 | the engine's result is simultaneous substitution: uncovered bytes once and in order, each range replaced by its text, insertions at one offset in reverse list order |
| Patching.RenderSubstitutes | pkg/lsp/edit_apply.go:204-208 | left-to-right rendering of a chained list is offset-by-offset simultaneous substitution |
| Patching.EngineOrderSubstitutes | pkg/lsp/edit_apply.go:196-208 | substituting in the engine's sorted order equals substituting in reverse list order |
| EditEngine.PatchRenders | pkg/lsp/edit_apply.go:196-208 | every accepted list's result is the left-to-right rendering of its sorted ranges |
| EditEngine.PatchLength | pkg/lsp/edit_apply.go:204-208 | the result is longer by exactly what the edits add minus what they cover |
| EditEngine.PatchStaysWellFormed | pkg/lsp/edit_apply.go:190-332 | well-formed text and well-formed replacement texts give a well-formed result |
| EditLaws.ResolvesToNamed | pkg/lsp/edit_apply.go:217-232 | an edit whose positions are those of two offsets resolves to exactly that range and its own text |
| EditLaws.ResolvedIsNamed | pkg/lsp/edit_apply.go:217-232 | and an edit that resolves names the range it resolves to |
| EditLaws.ResolveRefusals | pkg/lsp/edit_apply.go:220-230 | bad start, bad end and start after end, each exactly when |
| EditLaws.OneEditPatches | pkg/lsp/edit_apply.go:190-209 | one edit leaves the text before it, its own text, and the text after it |
| EditLaws.TwoEditsPatch | pkg/lsp/edit_apply.go:190-209 | two edits apart keep what is before, between and after them, in either list order |
| EditLaws.PatchAcceptsExactly | pkg/lsp/edit_apply.go:217-260 | a list is accepted iff every edit resolves and no two overlap; the overlap error iff all resolve and two do |
| EditLaws.PatchReportsFirst | pkg/lsp/edit_apply.go:217-232 | otherwise the error is that of the first edit that does not resolve |
| EditLaws.NoEditPatches | pkg/lsp/edit_apply.go:190-209 | no edits leave the text as it is |
| EditOrder.ListOrderExactly | pkg/lsp/edit_apply.go:196-207 | the result is the list-order one of LSP 3.17 iff insertions at each offset read the same forwards and backwards |
| EditOrder.ListOrderBroken | pkg/lsp/edit_apply.go:196-207 | two insertions at one place come out backwards |
| EditOrder.PermutationExactly | pkg/lsp/edit_apply.go:196-260 | permuting an accepted list keeps it accepted, and keeps the result iff no differing insertions at one offset are reordered |
| EditOrder.OrderNeverShows | pkg/lsp/edit_apply.go:196-260 | with at most one insertion per offset every permutation gives the same result |
| Paths.UnderRootExactly | pkg/lsp/edit_apply.go:334-358 | the Rel-based string test accepts exactly the targets whose cleaned components have the root's as a prefix |
| Paths.DotDotPrefixIsInside | pkg/lsp/edit_apply.go:351-356 | any component that merely starts with "..", directly under the root, is inside, and so is all below it |
| Paths.CleaningRules | pkg/lsp/edit_apply.go:338-345 | cleaning takes out, anywhere in a path, empty components, ".", a component with the ".." after it, and ".." at the root |
| Paths.AbsOfRooted | pkg/lsp/edit_apply.go:338-345 | a cleaned path written out from the root names itself |
| Paths.AbsOfRelative | pkg/lsp/edit_apply.go:338-345 | any other is cleaned from the working directory on |
| Paths.JoinOfSplit | pkg/lsp/edit_apply.go:346-356 | splitting a path at slashes loses nothing |
| FileTree.WriteFileKeeps | pkg/lsp/edit_apply.go:367-400 | an atomic write keeps every entry inside a directory and, when it fails, changes nothing |
| FileTree.RenameKeeps | pkg/lsp/edit_apply.go:468-470 | the move keeps every entry inside a directory and, when it fails, changes nothing |
| FileTree.RenameUndone | pkg/lsp/edit_apply.go:433-472 | renaming back restores the tree |
| ApplyTheorems.RunKeepsValid | pkg/lsp/edit_apply.go:61-122 | every run of every edit, failing or not, leaves each entry inside a directory |
| ApplyTheorems.CreateOutcome | pkg/lsp/edit_apply.go:402-431 | exactly when a create succeeds, what it leaves at the path, and that nothing else changes but directories above it |
| ApplyTheorems.RenameOutcome | pkg/lsp/edit_apply.go:433-506 | exactly when a rename succeeds; then the whole subtree is found under the new path and nowhere else, and the rest stays |
| ApplyTheorems.DeleteOutcome | pkg/lsp/edit_apply.go:508-542 | exactly when a delete succeeds; then exactly the path and everything below it is gone |
| ApplyTheorems.TextWritesOneFile | pkg/lsp/edit_apply.go:148-187 | a successful text change rewrites the one file it names with the patched text and nothing else |
| ApplyTheorems.FailureIsFirst | pkg/lsp/edit_apply.go:75-90 | the reported failure is the first failing change, applied to what the changes before it left |
| ApplyTheorems.FailureTearsExactly | pkg/lsp/edit_apply.go:93-187 | a failing change has altered the tree exactly in the nested-rename and root-removal cases |
| ApplyTheorems.RenameUpwardsDeletes | pkg/lsp/edit_apply.go:433-506 | an `overwrite` rename of a path to itself or an ancestor fails as not found after deleting everything there |
| ApplyTheorems.RenameDownwardsMakesDirs | pkg/lsp/edit_apply.go:433-472 | a rename to a place below itself fails as invalid after making the directories for it |
| ApplyTheorems.EmptyVersionsRefuse | pkg/lsp/edit_apply.go:148-172 | an empty but present version map refuses exactly the versioned changes among those with edits and a target |
| ApplyTheorems.FailedRunIsPrefix | pkg/lsp/edit_apply.go:61-91 | a failed edit leaves exactly what the changes before the failing one made, iff that one does not tear |
| ApplyTheorems.RunConfined | pkg/lsp/edit_apply.go:148-187 | every run leaves entries outside the root as they were, except that missing ancestors of the root may appear as directories |
| ApplyTheorems.OutsideUnchanged | pkg/lsp/edit_apply.go:334-358 | when the root's parent exists nothing outside the root changes at all |
| OutsideRoot.OutsideChangesExactly | pkg/lsp/edit_apply.go:61-187 | a run changes something outside the root iff the root's parent is missing, no file stands above the root, and the run reaches an allowed create whose target is under the root |
| OutsideRoot.OutsideIsSafeExactly | pkg/lsp/edit_apply.go:334-431 | no edit under any policy changes anything outside the root iff the root's parent exists or a file stands above the root |
| OutsideRoot.CreateReachesOutside | pkg/lsp/edit_apply.go:402-431 | an input that does: one create in a root whose parent is missing |
| OutsideRoot.RunWithoutParent | pkg/lsp/edit_apply.go:61-187 | while the root's parent is missing a run does nothing at all unless it reaches a create and no file is in the way, and then the parent appears |
| ApplyTheorems.TextOnlyKeepsShape | pkg/lsp/edit_apply.go:104-118 | under a policy with no Allow flag the set of paths and of directories is unchanged |
| ApplyLaws.TargetExactly | pkg/lsp/edit_apply.go:153-163 | the file a URI names, or which of the four refusals |
| ApplyLaws.VersionsDecide | pkg/lsp/edit_apply.go:164-172 | a change whose version agrees is done like an unversioned one; missing and different versions are refused, each exactly when |
| ApplyLaws.TextOutcome | pkg/lsp/edit_apply.go:174-186 | what a text change leaves, or which error, by what stands at its target |
| ApplyLaws.NoEditsNoChange | pkg/lsp/edit_apply.go:149-151 | a change without edits succeeds before anything about it is looked at |
| ApplyLaws.BadTargetsRefused | pkg/lsp/edit_apply.go:402-542 | every operation on a URI that names no file under the root is refused for that, and changes nothing |
| ApplyLaws.CreateRefusals | pkg/lsp/edit_apply.go:402-431 | existing file, directory in the way, file above: which error, nothing changed |
| ApplyLaws.RenameRefusals | pkg/lsp/edit_apply.go:433-506 | missing source, existing destination, file above: which error, nothing changed |
| ApplyLaws.DeleteRefusals | pkg/lsp/edit_apply.go:508-542 | missing, non-empty, root, file above: which error, nothing changed |
| ApplyLaws.PolicyDecides | pkg/lsp/edit_apply.go:93-122 | the first arm present is done if the policy allows it, and otherwise refused as disabled with the files as they were |
| ApplyLaws.PlainTextStep | pkg/lsp/edit_apply.go:75-81 | a change under Changes expects no version, whatever versions are known |
| ApplyLaws.RunSucceedsExactly | pkg/lsp/edit_apply.go:75-90 | a run succeeds iff each step does on what the one before it left |
| ApplyLaws.RunFailsAt | pkg/lsp/edit_apply.go:75-90 | the first failing step ends the run with its error and its place |
| ApplyLaws.ProgramExactly | pkg/lsp/edit_apply.go:70-88 | an edit's steps: one text change for each URI with that URI's edits, then every document change in its place, nothing else |
| ApplyLaws.ProgramOrder | pkg/lsp/edit_apply.go:70-81 | each URI once, in increasing byte order |
| ApplyLaws.AnswerTells | pkg/lsp/edit_apply.go:124-135 | the answer carries the failing change's error and its place, exact below 2^32 |
| ApplyLaws.OneChangeRuns | pkg/lsp/edit_apply.go:61-91 | a one-change edit, answer and files |
| Applier.ApplyTextDocumentChanges | pkg/lsp/edit_apply.go:148-187 | file tree and error of a text change, in the order the code makes its checks |
| Applier.ApplyResourceCreate | pkg/lsp/edit_apply.go:402-431 | file tree and error of a create |
| Applier.ApplyResourceRename | pkg/lsp/edit_apply.go:433-472 | file tree and error of a rename, partial effects included |
| Applier.PrepareRenameDestination | pkg/lsp/edit_apply.go:489-506 | what is removed, skipped or refused before a rename |
| Applier.ApplyResourceDelete | pkg/lsp/edit_apply.go:508-542 | file tree and error of a delete |
| Applier.ApplyDocumentChange | pkg/lsp/edit_apply.go:93-122 | the first present arm is dispatched, resource operations under the policy |
| Applier.ApplyWorkspaceEdit | pkg/lsp/edit_apply.go:61-135 | sorted-URI changes then document changes, whatever the map order; result, 32-bit failing index and tree are those of that program |
| Applier.RunConcat | pkg/lsp/edit_apply.go:75-88 | failures in the second loop are numbered after the first loop's changes |
| Wire.ToProtocol | pkg/lsp/workspace_edit.go:292-336 | sending succeeds exactly on convertible edits, and yields a wire form of the edit for every map order |
| Wire.FromProtocol | pkg/lsp/workspace_edit.go:93-134 | receiving fails exactly on a non-file URI or an unconvertible change, and otherwise yields the decoded edit |
| RoundTrip.SendableExactly | pkg/lsp/workspace_edit.go:338-413 | with parse-stable URIs sending succeeds exactly on 32-bit coordinates, 31-bit versions and changes with an arm |
| RoundTrip.ReceivedIsCanonical | pkg/lsp/workspace_edit.go:93-523 | send then receive is the identity but for annotation IDs under Changes and unused arms |
| RoundTrip.ReceivedAppliesAlike | pkg/lsp/workspace_edit.go:93-523 | and the received edit does to every tree what the sent one does |
| WireLaws.EditSentExactly | pkg/lsp/workspace_edit.go:338-369 | a text edit goes out iff its coordinates fit, each in its own place |
| WireLaws.ReceivedEditReturns | pkg/lsp/workspace_edit.go:136-141 | a received text edit sent again is the same |
| WireLaws.ElementSentExactly | pkg/lsp/workspace_edit.go:415-428 | an annotation ID makes the element an annotated one with that ID |
| WireLaws.ElementReceived | pkg/lsp/workspace_edit.go:146-170 | snippets and absent elements are refused, annotation IDs come back |
| WireLaws.ResourcesSentExactly | pkg/lsp/workspace_edit.go:430-523 | creates, renames and deletes go out iff every URI is a file's, with URIs and flags in their places |
| WireLaws.TextSentExactly | pkg/lsp/workspace_edit.go:386-413 | a text change goes out iff URI, version and every edit convert, each in its place |
| WireLaws.ChangeReceivedExactly | pkg/lsp/workspace_edit.go:172-290 | what a received document change is refused for |
| WireLaws.ChangeReceivedAs | pkg/lsp/workspace_edit.go:172-290 | and what an accepted one becomes, field by field |
| WireLaws.EditReceivedAs | pkg/lsp/workspace_edit.go:93-134 | a received edit has every document's edits, every change in its place, and the annotations |
| ApplyPolicy.Client.ApplyEdit | pkg/lsp/client.go:79-105 | without parameters, decodable payload and policy no file changes; otherwise the files become the edit's run under the policy |
| ApplyPolicy.Client.SetApplyPolicy | pkg/lsp/client.go:126-150 | the policy set or cleared, empty version maps made absent |
| ApplyPolicy.PolicyIsLastOpened | pkg/lsp/client.go:120-140 | in every interleaving the policy is that of the last window move, and that window is still open |
| ApplyPolicy.EnabledOnlyInside | pkg/lsp/client.go:107-124 | the policy is enabled only while some window is open, and is then that window's |
| ApplyPolicy.OverlapDisables | pkg/lsp/client.go:120-124 | closing one of two overlapping windows disables the one still open |
| ApplyPolicy.WindowKeepsOptions | pkg/lsp/client.go:126-150 | a window keeps root, Allow flags and versions as given, but for an empty version map |
| ApplyPolicy.ReadInsideIsGranted | pkg/lsp/client.go:91-113 | a request reading the policy inside the window last opened is granted that window's policy for the edit it arrived with |
| ApplyPolicy.OneStepAtATime | pkg/lsp/client.go:100-105 | a granted request makes one change a move and is over after at most one move more than its edit has changes |
| ApplyPolicy.OutsideReadIsOver | pkg/lsp/client.go:79-113 | a request that reads the policy outside every window never applies its edit, whatever other requests and windows do |
| ApplyPolicy.GrantWasReadInside | pkg/lsp/client.go:91-113 | a request allowed to apply read that very policy at an earlier move, inside an open window of that policy |
| ApplyPolicy.ChangeWasReadInside | pkg/lsp/client.go:79-140 | every change of the files, in every interleaving of requests change by change, is one change of one request's own edit under the policy it read inside an open window |
| ApplyPolicy.AloneAppliesWhole | pkg/lsp/client.go:79-105 | a request between whose changes no other request's come does to the files exactly what the interpreter does with its edit, whatever windows do meanwhile |
| ApplyPolicy.OutsideNothingChanges | pkg/lsp/client.go:79-105 | so if every read of the policy finds no window open the files never change |
| ApplyPolicy.TextWindowsKeepShape | pkg/lsp/command.go:55-75 | when every window carries no Allow flag no interleaving, change by change, creates, moves or deletes anything |
| DiagnosticsStore.Store.Publish | pkg/lsp/store.go:70-87 | the document's report, version, time and number after a publication, all else unchanged |
| DiagnosticsStore.Store.Snapshot | pkg/lsp/store.go:91-100 | the last report, and whether there was any |
| DiagnosticsStore.Store.PublishSeq | pkg/lsp/store.go:105-114 | the number of the last publication, 0 for none |
| DiagnosticsStore.Store.WaitPass | pkg/lsp/store.go:140-159 | one pass of the wait loop under the lock |
| Settle.BehaviourInv | pkg/lsp/store.go:70-175 | kept along every interleaving from a state that has it: cache equals history, one lock holder, no parked reader without its wakeup, no timer further ahead than the settle interval, sound returns |
| SettleTheorems.ReturnsSettledLatest | pkg/lsp/store.go:133-160 | whatever a reader returns is the latest publication at that moment, past its baseline, with none in the last settle interval |
| SettleTheorems.NoLostWakeup | pkg/lsp/store.go:133-175 | a parked reader with a done context has a broadcast coming; with news it has a broadcast coming, or a timer due no earlier than the end of the quiet period and within one settle interval from now |
| SettleTheorems.RankOverRun | pkg/lsp/store.go:133-160 | while no publication for its document comes, each helpful move (its own step, its timer, the broadcast it is parked for) brings a reader with a settled outcome closer and no other move sets it back; at most seven helpful moves are ever needed |
| SettleTheorems.ReaderFinishes | pkg/lsp/store.go:133-160 | once publications for its document stop and the quiet period is over (or its context is done) a reader has finished after seven rounds with some helpful move in each, however others interleave |
| SettleTheorems.NeverStuck | pkg/lsp/store.go:133-175 | and it can always be brought to that end: from every state satisfying the invariant there is a run without publication, cancellation or server death in which it finishes |
| SettleTheorems.NewsReachesReader | pkg/lsp/store.go:133-175 | the same for every reader with news past its baseline, quiet or not yet, or with its context done |
| SettleTheorems.HelpIsAtHand | pkg/lsp/store.go:140-175 | a helpful move for an unfinished reader with a settled outcome is available unless another holds the lock or the reader's timer is not yet due, which then comes within one settle interval |
| SettleTheorems.HolderMovesOn | pkg/lsp/store.go:137-160 | a lock holder can always move and lets go within three moves |
| SettleTheorems.BroadcastsReleaseNobody | pkg/lsp/store.go:116-160 | without publication or cancellation no broadcast, the one on server death included, makes a reader return |
| SettleTheorems.LookupReturnsFresh | pkg/lsp/diagnostics.go:66-91 | a look-up that reads its baseline first is never answered with diagnostics published before that |
| SettleTheorems.PassIsVerdict | pkg/lsp/store.go:140-159 | uninterrupted, the protocol's three checks are the store's own wait pass |
| ReaderLaws.PublishedExactly | pkg/lsp/store.go:70-87 | report, version, time and number after a publication, for its document only |
| ReaderLaws.OutcomeIsOwn | pkg/lsp/store.go:133-139 | in every interleaving a reader's outcome answers the document, interval and baseline it called with, and it ends without a report only if its context was cancelled |
| ReaderLaws.ReturnsNow | pkg/lsp/store.go:144-149 | the state a return speaks of is the one it is made in |
| DocumentSync.Session.SyncTextDocument | pkg/lsp/sync.go:41-68 | open documents and notifications after a synchronisation, delivered or not |
| DocumentSync.Session.CloseOpenDocuments | pkg/lsp/sync.go:70-84 | every document forgotten, each close that gets out sent once, in any order |
| DocumentSync.StepMirrorsExactly | pkg/lsp/sync.go:41-84 | one operation's notifications are accepted by the server, and keep it mirroring the session, iff it neither re-opens a stranded document nor overflows a version |
| DocumentSync.RunMirrorsExactly | pkg/lsp/sync.go:41-84 | the same over whole runs |
| SyncLaws.SyncSendsExactly | pkg/lsp/sync.go:41-68 | which one notification a synchronisation sends, with the caller's language and text, and when none |
| SyncLaws.SyncKeepsExactly | pkg/lsp/sync.go:41-68 | what the session has open afterwards; an undelivered notification changes nothing |
| SyncLaws.ServerHasText | pkg/lsp/sync.go:41-68 | after a synchronisation that breaks nothing the server has the caller's text |
| SyncLaws.CloseAllExactly | pkg/lsp/sync.go:70-84 | every document forgotten, each close that gets out sent, the rest left with the server |
| SyncLaws.OnlyAskedFor | pkg/lsp/sync.go:26-84 | every notification in any run is one some call asked for, language and text included |
| DocumentSync.ReopenBreaks | pkg/lsp/sync.go:41-84 | a possible run the server refuses: open, a close that does not get out, open again |
| DocumentSync.TypingBreaks | pkg/lsp/sync.go:61-67 | n successive texts of one document are accepted iff n is at most 2^31 - 1 |
| DocumentSync.RunNumbered | pkg/lsp/sync.go:61-67 | in such runs the versions of each open epoch are 1, 2, 3, and so on |
| DocumentSync.DiligentNeverBreaks | pkg/lsp/sync.go:31-84 | a caller whose closes all get out and whose documents keep below the last version never breaks the protocol |
| DocumentSync.DiligentRunsMirror | pkg/lsp/sync.go:31-84 | when every close gets out and no document runs out of versions, the server's documents are the session's, texts and versions |
| Lifecycle.BehaviourInv | pkg/lsp/manager.go:96-128 | the invariant of every interleaving of callers, starts, deaths and publications |
| Lifecycle.AtMostOneLive | pkg/lsp/manager.go:102-108 | at most one session per language is not dead |
| Lifecycle.GotStarted | pkg/lsp/manager.go:110-119 | a caller that returns without error holds a session whose start completed successfully |
| Lifecycle.StartedOnce | pkg/lsp/manager.go:110-112 | a session once begun never begins again |
| SessionLaws.LookupGives | pkg/lsp/manager.go:102-108 | a look-up gives the language's live session if any, else a new one with the store of its predecessors |
| SessionLaws.CallerGetsOwn | pkg/lsp/manager.go:96-120 | in every interleaving a caller gets a session of its own language that was started successfully, and is refused only if it gave up or a session of its language failed to start |
| SessionLaws.ReturnGives | pkg/lsp/manager.go:110-119 | returning from the wait gives the session iff its start succeeded |
| SessionLaws.CallerNeverStuck | pkg/lsp/manager.go:96-120 | from every reachable state each caller can still get its answer, with nobody giving up and no session failing or dying on the way |
| SessionLaws.PlacedOverRun | pkg/lsp/session.go:132-219 | a caller inside a start is the one running it, and one that waits, waits on a start that is over |
| SessionLaws.GivingUpEnds | pkg/lsp/manager.go:110-119 | a caller that gives up is refused, and nothing else changes |
| SessionLaws.DiesExactly | pkg/lsp/session.go:132-219 | a session dies only by dying or by failing to start |
| Lifecycle.StartsBounded | pkg/lsp/manager.go:96-120 | the starts for a language are at most one more than its deaths |
| Lifecycle.NumbersSurviveRespawn | pkg/lsp/manager.go:122-130 | publish numbers seen through any session of a language count the publications of all of them and never go down across respawns |
| Manager.Manager.Acquire | pkg/lsp/manager.go:96-108 | unknown languages change nothing; otherwise the critical section yields the live session or a new one with the old one's store |
| Languages.Registry.AddSpec | pkg/lsp/registry.go:202-239 | specs after adding one, or nothing changed when a name in it is empty |
| Languages.MergedClaimsExactly | pkg/lsp/registry.go:202-318 | the merged specs claim exactly the aliases, extensions and shebangs the given specs claim one by one |
| Languages.Registry.RebuildIndexes | pkg/lsp/registry.go:241-288 | for every map order, fails iff two languages claim one key, leaving all as it was; otherwise the three indexes hold exactly the claimed pairs |
| Languages.LookupAgreesWithSpecs | pkg/lsp/registry.go:91-107 | an index look-up answers what the specs say |
| RegistryBuild.NewRegistry | pkg/lsp/registry.go:39-87 | succeeds iff the specs are clean and free of conflicts and every server has a language and a command; then indexes, specs and servers are those of the input for every map order |
| RegistryBuild.AddServers | pkg/lsp/registry.go:56-80 | every server filed under its language, unknown languages entered as bare specs |
| RegistryBuild.ExtendingKeepsPeace | pkg/lsp/registry.go:59-85 | entering unknown server languages brings no conflict, so the second rebuild cannot fail |
| RegistryBuild.DistinctServersKept | pkg/lsp/registry.go:56-80 | server keys with distinct names each keep their own config |
| RegistryBuild.FiledUnderSpecKeys | pkg/lsp/registry.go:56-80 | every server key is a spec key, in normal form, that canonicalises to itself |
| RegistryBuild.IndexConfig | pkg/lsp/manager.go:169-180 | the manager's map holds exactly the canonical names, each with a config that has that name |
| RegistryBuild.SecondNamingIsIdentity | pkg/lsp/catalog.go:103-109 | the built-in canonicalisation is the identity on the server keys of any registry over the same catalog |
| RegistryBuild.ManagerHasTheServers | pkg/lsp/manager.go:163-180 | so the manager has exactly the registry's servers and configs |
| Resolver.FindLanguage | pkg/lsp/registry.go:168-187 | the file's language by extension, else by shebang |
| Resolver.LongestShebangWins | pkg/lsp/registry.go:166-187 | a shebang line belongs to the owner of the longest registered shebang it contains, measured in bytes, ties in byte order |
| Strings.LeqIsByteOrder | pkg/lsp/registry.go:275-280 | ordering strings by characters is ordering their UTF-8 bytes, as `strings.Compare` does |
| Resolver.ExplicitResolvesExactly | pkg/mcp/language_resolver.go:98-109 | an explicit language resolves exactly to the served language that claims it |
| Resolver.ManagerFindsResolved | pkg/mcp/language_resolver.go:44-109 | every language either resolver returns is found by the manager, with the registry's config |
| Catalog.DefaultCatalogBuilds | pkg/lsp/catalog.go:58-97 | the built-in catalog builds without conflict |
| LanguageLaws.NormalizeExactly | pkg/lsp/registry.go:202-239 | normalising drops the spaces at both ends and lowers the ASCII letters of the rest |
| LanguageLaws.ExtensionExactly | pkg/lsp/registry.go:320-330 | an extension gets one leading dot unless it has one |
| LanguageLaws.CleanedExactly | pkg/lsp/registry.go:202-233 | a spec is refused iff a name in it is empty, and otherwise kept with every name normalised in place |
| LanguageLaws.AddAllExactly | pkg/lsp/registry.go:48-52 | a list of specs is refused iff one of them is, and gives one spec a language |
| LanguageLaws.BuildableExactly | pkg/lsp/registry.go:39-87 | which specs and servers make a registry, read off the specs as given: clean specs, no alias, extension or shebang claimed for two languages, every server with a language and a command |
| LanguageLaws.LaterSpecWins | pkg/lsp/registry.go:202-302 | a later spec sets the language ID, and the candidates when it gives any; other languages stay |
| LanguageLaws.ServerKeepsCommand | pkg/lsp/registry.go:69-79 | a server keeps command and arguments; a missing language ID is the spec's, or the language's name |
| LanguageLaws.FiledUnderExactly | pkg/lsp/registry.go:57-65 | a server is filed under the language that claims its name, else under the name |
| LanguageLaws.EnteredExactly | pkg/lsp/registry.go:57-68 | which languages servers add to the specs, and that they claim no files |
| LanguageLaws.ExtExactly | pkg/lsp/registry.go:172 | a path's extension runs from the last dot of its last component |
| LanguageLaws.ContainsExactly | pkg/lsp/registry.go:181 | a shebang is found iff it stands somewhere in the line |
| LanguageLaws.FirstLineExactly | pkg/lsp/registry.go:178 | the first line ends before the first `\n` |
| LanguageLaws.ExtensionDecides | pkg/lsp/registry.go:172-176 | a registered extension decides a file's language whatever its text |
| LanguageLaws.NothingDecides | pkg/lsp/registry.go:168-187 | without a registered extension and a shebang line there is no language |
| LanguageLaws.InferredResolvesExactly | pkg/mcp/language_resolver.go:44-75 | without an explicit language a file's is the inferred one iff it is served, and the two refusals exactly |
| LanguageLaws.ExplicitRefusals | pkg/mcp/language_resolver.go:44-109 | an unknown language and an unserved one are refused each exactly when, for files and tools alike |
| LanguageLaws.OnlyServerResolves | pkg/mcp/language_resolver.go:79-96 | without a language a tool gets the only server's, and is refused unless there is exactly one |
| LanguageLaws.ManagerKnowsExactly | pkg/lsp/manager.go:163-167 | the manager finds a config iff its index has the language's canonical name |
| LanguageLaws.BuiltInLanguages | pkg/lsp/catalog.go:58-83 | the language of `.go`, `.rs`, `.py` and `.pyi` files |
| LanguageLaws.BuiltInNames | pkg/lsp/catalog.go:58-83 | the canonical language of each built-in name and alias, and of no other name |

## Left out

- Subprocesses, pipes, JSON-RPC, real clocks and timeouts: foreign calls. A start either succeeds or fails, a notification either gets out or not, the clock only moves forward.
- URI parsing: an abstract function from a string to a path; strict parsing likewise.
- Symbolic links, file modes, temporary files and I/O faults; paths resolve lexically. The atomic write, and each single change of an edit, are one step; overlapping server-initiated edits interleave change by change.
- Error message texts: errors are told apart by kind only; which of several conversion errors is reported first when a map is walked is not modelled.
- Windows path rules and Unicode beyond ASCII in trimming and lower-casing language names.
- 64-bit wrap-around of publish numbers.
- Closing documents while another call synchronises: `pkg/lsp/sync.go:70-84` drops the lock before sending `didClose`, so closing is taken as one step between synchronisations.
- `Manager.Close` and process shutdown: the lifecycle theorems are about runs without them.
- The pull path of diagnostics, hover, definition, implementation, symbols, code actions, code lenses, formatting and rename look-ups: requests and field copying.
- `InferLanguageFromCommand`, PATH discovery, CLI and configuration files: environment.
- Delivery of new diagnostics for unchanged text: nothing is sent, so such a look-up may wait until its context ends.
