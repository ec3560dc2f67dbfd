# Verified model of MTM's installer, patch engine and command collectors

This Dafny project models five parts of MTM and proves what they promise, for every
input and every run.

* **Release selection** (`disk.dfy`, `deployment.dfy`). `install`, `rollback` and
  `status` move up to eight selectors and a manifest together, under a write-ahead
  journal. `ReleaseDisk` has the disk as a value, the single filesystem steps, and
  `Enabled`, the write-ahead discipline that says which step may be taken when.
  `Committed` is what a disk selects: the disk itself or, while a journal is open,
  what undoing the journal restores. The main theorems say that over every legal
  list of steps only one kind of step, the removal of the journal of a completed
  operation, changes what is committed, so every kill point leaves either the whole
  old state or the whole new one to be restored. `Deployment.Host` then has the
  commands as they are written, on a disk where each step may fail before or after it
  took effect and the process may be killed, and proves that they take legal steps
  only, that a verified compensation means the old state is back, and that nothing
  but a fault stops a recovery. `Host.KilledAndRecovered` puts the two together: a
  command killed anywhere, any number of recoveries killed anywhere, and one that
  completes leave the whole state before the command or the whole state after it.
  Two facts the contracts keep apart. An error does not mean the old state is back:
  closing the journal can report a failure after the journal is gone, and the status
  check after closing it can fail. And undoing an operation does not always give back
  every selector exactly: `ReleaseDisk.UndoingIsExact` says when it does. Undoing an
  install drops special permission bits, and undoing a rollback makes every selector a
  direct link to the release, whatever link led there before.
* **The patch engine** (`patch_text.dfy`, `patch_update.dfy`, `patch_legacy.dfy`,
  `patch_parse.dfy`, `patch_refinement.dfy`). Both appliers and both parsers, with the
  comparison budget, trimming, reverse splicing, reported ranges and line endings,
  and the theorems that relate the frozen versions to the current ones.
* **Shell lists** (`shell_segments.dfy`, `shell_grammar.dfy`, `shell_candidates.dfy`).
  The quote-aware scanner, the for-loop stack, and the depth-bounded collection of
  executables. Each is proved equal to a definition of its own: which positions quotes
  and escapes cover, which words form nested loops, and which programs a command runs.
* **The milestone graph** (`milestones.dfy`). The visit loop decides acyclicity, and
  the event check means what it should.
* **Bounded capture** (`capture.dfy`). Head and rolling tail against the whole stream.

Digests are injective (`Sha(of)`), text is a sequence of Unicode characters whose
`Size` is its length in UTF-8, and `char::is_whitespace` is the Unicode White_Space
set. Code that updates things step by step is a class or a method with a loop, proved
against the functions that specify it; what the source promises is proved about those
functions.

The comparison budget of `crates/mtm-core/src/patch_update.rs` is an estimate of
three searches for the old side and two for the new side of a hunk. A located hunk
never searches for its new side, and what that leaves pays for dropping equal lines at
both ends, so the budget covers that as well (`PatchUpdate.LocatedTrimBound`).

## Model

| member | source | states |
|---|---|---|
| ReleaseDisk.StepKeepsCommitted | crates/mtm-cli/src/deployment.rs:536-581 | Every legal step but the removal of a completed journal leaves what is committed as it was, opening a journal included |
| ReleaseDisk.OpeningIsInvisible | crates/mtm-cli/src/deployment.rs:536-567 | Opening a journal changes nothing that is committed: undoing it would restore what is seen now |
| ReleaseDisk.UndoingIsExact | crates/mtm-cli/src/deployment.rs:377-449 | Undoing a journal restores every selector exactly if and only if no managed file had special bits (install) or every managed selector was a direct link to the release (rollback) |
| ReleaseDisk.UndoneInstallCanLoseBits | crates/mtm-cli/src/deployment.rs:388-395 | A file of mode 0o4755 comes back as 0o755 |
| ReleaseDisk.UndoneRollbackCanLoseLinkText | crates/mtm-cli/src/deployment.rs:1019-1032 | A link that reached the release through another link comes back as a direct link |
| ReleaseDisk.SettingIsInvisible | crates/mtm-cli/src/deployment.rs:407-449 | Moving a managed selector under an open journal does not change what undoing the journal restores |
| ReleaseDisk.ClosingUndoneIsInvisible | crates/mtm-cli/src/deployment.rs:569-581 | Clearing the journal after a complete compensation changes nothing |
| ReleaseDisk.StepKeepsRecoverable | crates/mtm-cli/src/deployment.rs:463-521 | With a journal open, its manifest, release, selector backups and hash-matching manifest backup stay intact, so it can always be loaded and undone |
| ReleaseDisk.CommitSelects | crates/mtm-cli/src/deployment.rs:934-954 | Removing the journal of a completed operation selects exactly what it was to select, and the manifest tells the truth about it |
| ReleaseDisk.CommitSparesOthers | crates/mtm-cli/src/deployment.rs:921-933 | A commit touches no selector the operation does not manage |
| ReleaseDisk.StepKeepsTruth | crates/mtm-cli/src/deployment.rs:811-839 | The committed manifest never starts to lie about the committed selectors |
| ReleaseDisk.EveryRunIsAtomic | crates/mtm-cli/src/deployment.rs:841-954 | For every run stopped anywhere, what can be restored is the latest committed state, never a mix |
| ReleaseDisk.StepKeepsRollback | crates/mtm-cli/src/deployment.rs:971-991 | No step takes away the release or a backup that rolling back the committed manifest needs |
| ReleaseDisk.EveryRunIsRecoverable | crates/mtm-cli/src/deployment.rs:583-619 | Every run from a recoverable disk stays recoverable, truthful and fit for a rollback |
| ReleaseDisk.RecoveryLandsOnCommitted | crates/mtm-cli/src/deployment.rs:583-619 | When the steps after a kill add no committed state and end without a journal, the killed run's last committed state is on disk |
| ReleaseDisk.EveryRunKeepsArtifacts | crates/mtm-cli/src/deployment.rs:316-398 | Published releases and selector backups are immutable in every run |
| ReleaseDisk.SettleForgets | crates/mtm-cli/src/deployment.rs:1019-1058 | Undoing a journal does not depend on how far the selectors had been moved |
| ReleaseDisk.SeenMasked | crates/mtm-cli/src/deployment.rs:767-809 | Dropping special permission bits changes neither link resolution nor what is seen |
| ReleaseDisk.DoneIsHealthy | crates/mtm-cli/src/deployment.rs:811-839 | An operation that has run to its end passes the status check |
| Deployment.Host.constructor | crates/mtm-cli/src/deployment.rs:841-852 | A process starts on the disk as it is |
| Deployment.Host.Perform | crates/mtm-cli/src/deployment.rs:184-238 | A step takes effect wholly or not at all, may report failure after taking effect, and does nothing once the process is killed |
| Deployment.Host.AtomicLink | crates/mtm-cli/src/deployment.rs:214-238 | Success means the selector is exactly that link; nothing else changes |
| Deployment.Host.RestoreOne | crates/mtm-cli/src/deployment.rs:407-449 | Success means the selector has its earlier kind, target, bytes and mode; only a directory in the way, a damaged backup or a fault can prevent it |
| Deployment.Host.RestoreSelectors | crates/mtm-cli/src/deployment.rs:1025-1032 | All selectors are tried in reverse order; each one not restored has cost a fault of its own |
| Deployment.Host.RestoreManifest | crates/mtm-cli/src/deployment.rs:1033-1049 | Verified means the manifest is what it was before the operation |
| Deployment.Host.CheckSelectors | crates/mtm-cli/src/deployment.rs:1050-1056 | Checking changes nothing and passes when every selector is back |
| Deployment.Host.Compensate | crates/mtm-cli/src/deployment.rs:1019-1058 | Verified means selectors and manifest are completely undone; on a recoverable disk only a fault prevents it |
| Deployment.Host.CleanupOrphan | crates/mtm-cli/src/deployment.rs:523-534 | A manifest backup without a journal is inert |
| Deployment.Host.BeginRecovery | crates/mtm-cli/src/deployment.rs:536-567 | The journal is written last and whole; an open one is never overwritten; nothing committed changes |
| Deployment.Host.ClearRecovery | crates/mtm-cli/src/deployment.rs:569-581 | Can report failure after the journal is gone; without a fault journal and manifest backup are both gone |
| Deployment.Host.RecoverInterrupted | crates/mtm-cli/src/deployment.rs:583-619 | Never changes what is committed and adds no committed state; success means no journal and everything undone; an unloadable journal changes nothing; failure keeps the journal unless all is undone; fails only by a fault |
| Deployment.Host.LoadManifest | crates/mtm-cli/src/deployment.rs:621-634 | Only a valid manifest loads, and without a fault every one does |
| Deployment.Host.StatusForRoot | crates/mtm-cli/src/deployment.rs:811-839 | Reports a state only when every check holds, and without a fault exactly then |
| Deployment.Host.Status | crates/mtm-cli/src/deployment.rs:956-961 | Never changes what is committed; without a fault it undoes what an open journal covers, leaves no journal, and then answers with the state if the installation is healthy and with an error if it is not |
| Deployment.Host.CopyRelease | crates/mtm-cli/src/deployment.rs:316-375 | Succeeds only for a publishable release, and without a fault for every one; the release is then there with the expected bytes and mode; no other release changes |
| Deployment.Host.RecordPrevious | crates/mtm-cli/src/deployment.rs:377-398 | The entry recorded restores what the selector holds, up to special bits; a directory, a file too large or a backup in the way are refused; no earlier backup changes |
| Deployment.Host.RecordAll | crates/mtm-cli/src/deployment.rs:902-914 | Every selector is recorded before any is touched |
| Deployment.Host.MoveAll | crates/mtm-cli/src/deployment.rs:921-933 | Success means every selector has reached the goal; other selectors are not touched |
| Deployment.Host.Abort | crates/mtm-cli/src/deployment.rs:926-932 | A failed step never commits; compensation is reported verified only when the old state is back, and always when recovery meets no fault |
| Deployment.Host.CloseDone | crates/mtm-cli/src/deployment.rs:947-954 | A failed close is either undone or, when the journal is already gone, committed |
| Deployment.Host.Complete | crates/mtm-cli/src/deployment.rs:934-954 | Ends undone, undoable or committed; success means committed and healthy; without a fault it succeeds |
| Deployment.Host.CheckCurrent | crates/mtm-cli/src/deployment.rs:854-879 | What is there may be replaced only if there is no manifest or a healthy installation through the same selectors; without a fault it may exactly then, unless it is the release asked for |
| Deployment.Host.Prepare | crates/mtm-cli/src/deployment.rs:880-915 | Publishing and recording touch only releases and backups, succeed only when both are allowed, and give a manifest whose entries restore every selector |
| Deployment.Host.Switch | crates/mtm-cli/src/deployment.rs:915-954 | An installation from journal to reply is atomic |
| Deployment.Host.InstallOver | crates/mtm-cli/src/deployment.rs:880-954 | From a replaceable installation: commits only when the release is ready to be installed, and then selects it; without a fault exactly then |
| Deployment.Host.InstallRelease | crates/mtm-cli/src/deployment.rs:841-954 | Either nothing is committed or exactly one new state is, from a recovered state that was ready for it; over an unhealthy installation or other selectors nothing is committed or reported selected; without a fault it succeeds exactly when the release is ready or is already installed, which then changes nothing; a verified compensation means the old state |
| Deployment.Host.CheckReversible | crates/mtm-cli/src/deployment.rs:971-991 | Passes exactly when every selector resolves to the release and every backup is intact, save for faults |
| Deployment.Host.RollBackHere | crates/mtm-cli/src/deployment.rs:968-1013 | Without a journal: commits only a reversible installation, and an installation rolled back before is only checked; without a fault it succeeds exactly for these two |
| Deployment.Host.Unswitch | crates/mtm-cli/src/deployment.rs:992-1013 | A rollback from journal to reply is atomic |
| Deployment.Host.RollBack | crates/mtm-cli/src/deployment.rs:963-1013 | Either nothing is committed or exactly one new state is, with everything rolled back; without a fault it succeeds exactly when the recovered installation is reversible or was rolled back before, and a second rollback changes nothing; a committed release is always reversible |
| Deployment.CommittedIsReversible | crates/mtm-cli/src/deployment.rs:971-991 | A truthful active manifest with its release and backups passes every check of a rollback |
| Deployment.RollbackUndoesInstall | crates/mtm-cli/src/deployment.rs:377-449 | Install then rollback restores kind, link, bytes and low nine mode bits, and restores everything exactly if and only if no replaced file had special bits |
| Deployment.Host.Run | crates/mtm-cli/src/deployment.rs:841-1013 | A command adds no committed state, or the one it was to select from a state that warranted it; without a fault it does whenever that state warrants it; releases, backups and earlier states are kept |
| Deployment.Host.RecoverTimes | crates/mtm-cli/src/deployment.rs:583-619 | Any number of recoveries, killed anywhere, commit nothing |
| Deployment.Host.KilledAndRecovered | crates/mtm-cli/src/deployment.rs:583-619 | A command killed anywhere, any killed recoveries and a completed one leave the whole state before the command or the whole state after it |
| Deployment.Host.RunAll | crates/mtm-cli/src/deployment.rs:841-1013 | Commands prolong the run: every committed state, release and backup is kept, and each command adds at most one state |
| Deployment.Host.RollBackAfter | crates/mtm-cli/src/deployment.rs:963-1013 | After any commands with any faults and kills, a rollback without faults succeeds whenever a release is committed |
| Deployment.Host.Lifetime | crates/mtm-cli/src/deployment.rs:841-1013 | Any commands with any faults and kills keep the disk recoverable and add at most one committed state each, and a last process without faults restores the last of them |
| PatchText.LinesShrink | crates/mtm-core/src/patch_update.rs:140-146 | The lines of a text are together no larger than the text |
| PatchText.WrittenTrim | crates/mtm-core/src/patch_update.rs:234-247 | Leaving equal lines at both ends out of an edit does not change the result |
| PatchText.SpliceBack | crates/mtm-core/src/patch_update.rs:286-289 | Splicing from the last edit to the first gives the left-to-right rewriting |
| PatchUpdate.ParseHunk | crates/mtm-core/src/patch_update.rs:29-73 | Old and new side, anchor, context and end-of-file marks of a hunk, or a failure exactly on a line without a marker |
| PatchUpdate.SideIsPicked | crates/mtm-core/src/patch_update.rs:29-73 | Each side of a hunk is exactly the body lines that are empty, context or marked for that side, in order and without their marks |
| PatchUpdate.ContextMeans | crates/mtm-core/src/patch_update.rs:45-57 | A hunk has context exactly when a body line is empty or marked as context |
| PatchUpdate.AnchorMeans | crates/mtm-core/src/patch_update.rs:37-40 | The anchor is what the last header line names, and there is none without a header |
| PatchUpdate.PositionsDecide | crates/mtm-core/src/patch_update.rs:81-105 | Stopping at nine candidates hides neither an absence nor an ambiguity |
| PatchUpdate.EqualMeans | crates/mtm-core/src/patch_update.rs:74-80 | The grades are: the same text, the same up to white space at the end, the same up to white space at both ends |
| PatchUpdate.GradesAreNested | crates/mtm-core/src/patch_update.rs:74-80 | What matches at one grade matches at every looser one |
| PatchUpdate.LocatedIffUnique | crates/mtm-core/src/patch_update.rs:215-229 | A hunk is located at a place exactly when that is the only match at or after the cursor at its grade and no tighter grade matches |
| PatchUpdate.FindGradeIsTightest | crates/mtm-core/src/patch_update.rs:215-218 | A search takes the tightest grade it accepts, and fails only when it accepts none |
| PatchUpdate.AnchorPlaced | crates/mtm-core/src/patch_update.rs:179-199 | A hunk is searched from behind the first line equal to its anchor at the tightest grade, and is not found when no line is equal |
| PatchUpdate.ReplacementPlaced | crates/mtm-core/src/patch_update.rs:215-251 | At the tightest grade with a match, a single match is replaced, and several are reported as ambiguous |
| PatchUpdate.RepeatPlaced | crates/mtm-core/src/patch_update.rs:252-270 | A hunk whose old side is nowhere counts as applied exactly when its telling new side is there once, and else is not found |
| PatchUpdate.AppendPlaced | crates/mtm-core/src/patch_update.rs:200-214 | A hunk without an old side is appended unless the text already ends with it |
| PatchUpdate.GradeIsLoosest | crates/mtm-core/src/patch_update.rs:149-262 | The match quality reported is the loosest grade at which any hunk was placed |
| PatchUpdate.EstimateUnsaturated | crates/mtm-core/src/patch_update.rs:154-178 | An estimate that fits the budget has not saturated |
| PatchUpdate.LocatedTrimBound | crates/mtm-core/src/patch_update.rs:234-247 | Trimming a located hunk compares no more than the two searches it leaves out may |
| PatchUpdate.HunkBound | crates/mtm-core/src/patch_update.rs:154-262 | The bytes that a hunk's anchor search, window searches and trimming compare never exceed its estimate |
| PatchUpdate.ComparisonsAreBounded | crates/mtm-core/src/patch_update.rs:150-262 | Over all hunks, searches and trimming compare at most 512 MiB, for lines no larger than the size the estimates use |
| PatchUpdate.ApplyingIsBounded | crates/mtm-core/src/patch_update.rs:140-262 | Applying any patch to any text compares at most 512 MiB |
| PatchUpdate.TrimEdit | crates/mtm-core/src/patch_update.rs:230-247 | What is left of an edit without the longest stretch of equal lines at its start and then at its end; empty exactly when nothing changes |
| PatchUpdate.CommonPrefix | crates/mtm-core/src/patch_update.rs:230-238 | The longest stretch of equal lines at the start of an edit |
| PatchUpdate.TrimsAreTight | crates/mtm-core/src/patch_update.rs:230-247 | A trimmed edit changes something and has no equal line left at either end |
| PatchUpdate.PlaceAll | crates/mtm-core/src/patch_update.rs:147-271 | The placements are the trims of the planned edits that change something, in order, disjoint, and rewrite the text as the untrimmed edits do; the first failure in order is reported |
| PatchUpdate.Ranges | crates/mtm-core/src/patch_update.rs:272-285 | Each range names the updated lines that hold the new text; no subtraction underflows; additions and removals are the sums over the ranges, and line counts add up |
| PatchUpdate.ApplyUpdateHunksDetailed | crates/mtm-core/src/patch_update.rs:125-308 | The text with every matched range replaced by the hunk's new side, with its line endings, or the first failure; ranges, additions and removals are those of the trimmed edits, none of which has an equal line at either end; more than 64 MiB or 200 hunks are refused |
| PatchLegacy.ParseHunk | crates/mtm-core/src/patch_legacy.rs:163-197 | Both sides of a hunk, or a failure exactly on an unmarked line |
| PatchLegacy.FindAllIsAll | crates/mtm-core/src/patch_legacy.rs:199-206 | All occurrences, in order, and nothing else |
| PatchLegacy.EditOfMeans | crates/mtm-core/src/patch_legacy.rs:107-139 | A hunk goes where its old side is, if that is one place, and in front of the first line without an old side; it is not found or ambiguous exactly when its old side is nowhere or in several places |
| PatchLegacy.NeighboursSuffice | crates/mtm-core/src/patch_legacy.rs:141-149 | The check of adjacent replacements implies that all ranges are pairwise disjoint |
| PatchLegacy.SortedIsUnique | crates/mtm-core/src/patch_legacy.rs:140 | Sorting by place and text leaves no choice of order |
| PatchLegacy.CheckOverlap | crates/mtm-core/src/patch_legacy.rs:141-149 | Adjacent replacements overlap or not |
| PatchLegacy.ApplyUpdateHunks | crates/mtm-core/src/patch_legacy.rs:90-161 | The frozen applier's answer: every hunk's one match replaced, or the failure |
| PatchLegacy.LegacyMeans | crates/mtm-core/src/patch_legacy.rs:90-161 | A failure to parse comes before all else, then the failure of the first hunk that is nowhere or in several places, then overlap; otherwise every hunk is replaced in its one place |
| PatchLegacy.HunkOrderIsIrrelevant | crates/mtm-core/src/patch_legacy.rs:107-161 | Any permutation of the hunks succeeds or fails alike, with the same text |
| PatchRefinement.RebuildKeepsUniformEndings | crates/mtm-core/src/patch_update.rs:290-299 | Rebuilding unchanged lines gives the text back exactly when its line endings are uniform |
| PatchRefinement.RebuildMeans | crates/mtm-core/src/patch_update.rs:290-299 | A changed text is its lines, with a newline at the end when the text ended with one or was empty, and with CR LF everywhere or nowhere, as the text had one or none |
| PatchRefinement.CurrentRefinesFrozen | crates/mtm-core/src/patch_update.rs:125-308 | For any text and hunks the frozen applier accepts at places that go forward, the current applier accepts them unless it hits a limit, and gives the same text if and only if some hunk asks for a change or the line endings are uniform |
| PatchRefinement.MixedEndingsDiffer | crates/mtm-core/src/patch_update.rs:290-299 | A text with mixed endings and a hunk without a change, on which the two appliers differ |
| PatchRefinement.PlanFollows | crates/mtm-core/src/patch_update.rs:153-271 | The cursor follows the frozen applier's places hunk by hunk |
| PatchParse.ReadAdded | crates/mtm-core/src/patch.rs:94-106 | The added lines up to the next operation, all of them marked |
| PatchParse.ReadHunks | crates/mtm-core/src/patch.rs:124-142 | The hunks of a section, cut at header lines |
| PatchParse.ParsePatch | crates/mtm-core/src/patch.rs:67-151 | The operations of a patch in either flavour, or a refusal |
| PatchParse.FrozenIsCurrentWithoutEndOfFile | crates/mtm-core/src/patch_legacy.rs:6-88 | The frozen parser accepts exactly what the current one accepts without an End-of-File line, and drops header lines and empty hunks |
| PatchParse.FrozenHasNoEndOfFile | crates/mtm-core/src/patch_legacy.rs:66-86 | The frozen parser accepts no End-of-File line anywhere |
| PatchParse.ParseUndoesPrint | crates/mtm-core/src/patch.rs:67-151 | Parsing the canonical print of any well-formed operations gives the operations |
| PatchParse.ParseForgivesSpacing | crates/mtm-core/src/patch.rs:84-151 | White space around paths, and blank lines at the start and behind deletions, do not change what is read |
| PatchParse.AddRefusesBlank | crates/mtm-core/src/patch.rs:94-106 | A blank line among the lines of an added file makes the patch malformed |
| PatchParse.BlankExtendsHunk | crates/mtm-core/src/patch.rs:124-142 | Behind an update a blank line is one more line of its last hunk |
| ShellSegments.CommandSegments | crates/mtm-core/src/shell_segments.rs:22-92 | The command cut exactly at the operators that no quote or escape covers, or the refusal, error or limit that is met first |
| ShellSegments.OutcomeIsVerdict | crates/mtm-core/src/shell_segments.rs:22-92 | With quotes, escapes, operators and refused characters defined by position alone: the outcome is a refusal exactly when something refused is met within the limits, an error exactly when a quote or escape is left open, and else the pieces between operators |
| ShellSegments.SegmentsAreBetweenOperators | crates/mtm-core/src/shell_segments.rs:22-92 | A command is segmented exactly when it is not too large, holds nothing refused, leaves nothing open and has at most 1024 segments; these are the non-blank pieces between its operators |
| ShellSegments.SegmentingAgain | crates/mtm-core/src/shell_segments.rs:22-92 | Each segment alone is its own segment, and segments joined with `;` are segmented the same way |
| ShellSegments.LiteralImpliesExecutable | crates/mtm-core/src/shell_segments.rs:11-20 | What the literal mode segments, the executable mode segments alike |
| ShellSegments.WalkIsLocal | crates/mtm-core/src/shell_segments.rs:31-99 | Scanning a piece depends only on the piece, the one-character lookahead included |
| ShellGrammar.PushKeepsOnlyTop | crates/mtm-core/src/shell_candidates.rs:31-63 | Only the top loop can await `do`, and at most 32 are open |
| ShellGrammar.AcceptsExactlyTheGrammar | crates/mtm-core/src/shell_candidates.rs:31-67 | The loop stack accepts exactly lists of commands and for-loops nested at most 32 deep |
| ShellCandidates.AppendSegmentCandidates | crates/mtm-core/src/native_permission.rs:1370-1414 | The executable behind assignments, wrappers and keywords, and, when it is a shell with a script, what the script runs one level deeper |
| ShellCandidates.AppendSimpleCandidates | crates/mtm-core/src/shell_candidates.rs:71-130 | The same for a list segment, with the `command` builtin and its options |
| ShellCandidates.RunSegment | crates/mtm-core/src/shell_candidates.rs:32-63 | One segment against the loop stack |
| ShellCandidates.PartMeans | crates/mtm-core/src/shell_candidates.rs:32-42 | A segment is an optional `do` and a body, apart from white space around them |
| ShellCandidates.KindIsFirstWord | crates/mtm-core/src/shell_candidates.rs:43-63 | The first word of a body alone decides whether it is compound, a loop header, a loop end or a command |
| ShellCandidates.CollectSimple | crates/mtm-core/src/shell_candidates.rs:10-69 | The executables of a command list, or that it is not one, or an error |
| ShellCandidates.PrefixesAreTransparent | crates/mtm-core/src/native_permission.rs:1375-1402 | Assignments, wrappers and keywords in front of a command do not change what it runs |
| ShellCandidates.EnvIsTransparent | crates/mtm-core/src/native_permission.rs:1381-1396 | `env` runs what follows its options and assignments, a name after `-u` included |
| ShellCandidates.EnvRunsTheRest | crates/mtm-core/src/native_permission.rs:1381-1396 | `env` with any options, unset names and assignments runs the command behind them |
| ShellCandidates.SegmentRunsACommand | crates/mtm-core/src/native_permission.rs:1370-1414 | The executable found is a word of the segment and no wrapper or keyword; only a shell's script adds more |
| ShellCandidates.CollectExecutables | crates/mtm-core/src/native_permission.rs:1311-1355 | What the command runs: read as a simple list if it is one, else as literal segments, else as the words between control operators |
| ShellCandidates.CollectArgv | crates/mtm-core/src/native_permission.rs:1357-1368 | The executable of an argument vector, followed, when it is a shell with a script, by what is collected from the script at depth 1, or that failure |
| ShellCandidates.ExecutablesRun | crates/mtm-core/src/native_permission.rs:1311-1414 | What is collected is what runs: the program of every segment in order, each shell followed by what its script runs one level deeper, or the first error |
| ShellCandidates.SimpleRuns | crates/mtm-core/src/shell_candidates.rs:71-130 | The same for a simple command: the `command` builtin starts what follows its options one level deeper, and starts nothing when it only asks |
| ShellCandidates.OptionsMean | crates/mtm-core/src/shell_candidates.rs:79-105 | The options of `command` end at the first word that is none; any other word with a dash is an error; what they ask for is what any of them asks for |
| ShellCandidates.ScriptArgumentMeans | crates/mtm-core/src/native_permission.rs:1416-1424 | The script of a shell is the word behind its first script flag |
| ShellCandidates.BasenameMeans | crates/mtm-core/src/native_permission.rs:1472-1479 | The base name is what follows the last slash or backslash, in lower case |
| ShellCandidates.AssignmentMeans | crates/mtm-core/src/native_permission.rs:1430-1440 | An assignment has a name of letters, digits and underscores, not starting with a digit, in front of its first equals sign |
| ShellCandidates.GroupsSplit | crates/mtm-core/src/native_permission.rs:1340-1355 | A control operator separates the word groups on its two sides |
| ShellCandidates.ArgvIsItsSegment | crates/mtm-core/src/native_permission.rs:1357-1414 | An argument vector is collected as a segment of the same words exactly when it starts with no wrapper or keyword |
| ShellCandidates.ListsAreCollectedExactly | crates/mtm-core/src/shell_candidates.rs:30-68 | Given each segment's own checks, a list is collected exactly when its loops are well formed, and the result is every segment's executables in order |
| ShellCandidates.ExecutablesAgree | crates/mtm-core/src/native_permission.rs:1311-1355 | The depth bound only refuses: what is collected at some depth is collected alike at every lesser depth |
| Milestones.VisitAll | xtask/src/records.rs:158-174 | The visit loop terminates and visits every node exactly when the dependencies have no cycle |
| Milestones.Pass | xtask/src/records.rs:161-169 | A pass in any order keeps a ranking, and adds nothing only when no unvisited node is ready |
| Milestones.RankedIsAcyclic | xtask/src/records.rs:158-174 | Visiting all nodes leaves no room for a cycle |
| Milestones.StuckHasCycle | xtask/src/records.rs:170-174 | Nodes that stay unvisited hold a cycle |
| Milestones.CheckMilestones | xtask/src/records.rs:113-121 | Distinct identifiers and known statuses |
| Milestones.CheckDependencies | xtask/src/records.rs:122-134 | Dependencies are known, not reflexive and not repeated |
| Milestones.CheckEdges | xtask/src/records.rs:147-157 | The edges are exactly the declared dependencies, without repeats |
| Milestones.CheckEvents | xtask/src/records.rs:175-196 | Each event follows on from its milestone's previous status |
| Milestones.EventsFormChains | xtask/src/records.rs:175-202 | In a valid graph each milestone's events form one chain that ends in its current status |
| Milestones.ReceiptsDecide | xtask/src/records.rs:135-146 | Exactly the completed, authoritative, rejected and superseded milestones need a receipt that names them and their status |
| Milestones.ValidGraphMeans | xtask/src/records.rs:122-196 | In a valid graph edges lead exactly from milestones to the other milestones they depend on, and every event has its own identifier and speaks of a known milestone and known statuses |
| Milestones.ValidateGraph | xtask/src/records.rs:108-204 | The number of milestones exactly when the graph is valid; every milestone that has ended then has its receipt |
| Capture.BoundedCapture.constructor | crates/mtm-native/src/capture.rs:32-41 | An empty capture whose head never exceeds the limit |
| Capture.BoundedCapture.Append | crates/mtm-native/src/capture.rs:43-60 | However chunked, head and tail are those of the whole stream |
| Capture.BoundedCapture.TakePayload | crates/mtm-native/src/capture.rs:63-75 | What is retained, the bytes seen up to the counter's limit, and that retained and dropped add up exactly while the count fits |
| Capture.BoundedCapture.TailStartOffset | crates/mtm-native/src/capture.rs:93-95 | The tail's true place in the stream, exactly while the count fits |
| Capture.KeptParts | crates/mtm-native/src/capture.rs:43-75 | Nothing is lost up to the limit; beyond it only a middle part is |

## Left out

- Deployment.Host.Perform: a rename-based write is one step; staging files, directory syncing, power loss and a stale staging link left by a killed process with the same process number are only faults.
- Deployment.Host.InstallRelease: the lexical checks on paths and version text, the release.json record beside the binary, and size and mode checks on the journal and manifest files are not modelled; one process at a time holds the installation lock.
- PatchUpdate.ComparisonsAreBounded: counts the bytes of both strings of every comparison; testing a side for blank lines compares nothing and is not counted.
- PatchUpdate.ApplyUpdateHunksDetailed: the text of error messages, candidate lines and nearby text are not modelled, only the kind of failure.
- PatchLegacy.ApplyUpdateHunks: the library sort is a specified insertion sort.
- ShellCandidates.CollectSimple: the word splitter is a parameter, any function from text to words or failure.
- Milestones.ValidateGraph: JSON decoding; a graph has typed fields.
- Capture.BoundedCapture.TakePayload: the lossy decoding of retained bytes to text.
- Risk patterns, permission modes and command policy: they need regular expressions and only one mode exists.
- Receipt, corpus and summary validators, release cutover, HTTP, OAuth and terminal code: input and output, or long field-by-field comparisons.
