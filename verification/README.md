# Arity in Dafny

A model of the self-contained algorithms and state machines of Arity, an R
formatter, linter and language server, with proofs of what they promise.
`dafny verify dfyconfig.toml` checks the whole project.

- **Incremental parsing** (`Edits`, `ParseCache`, `ParseHistory`). The shared map
  of previous parses, staged edits and hit counters, as a state machine over
  single shared accesses by any number of handles, and as a class whose methods
  run on that machine; and the state any run ends in, read off its actions.
  Parsing and the reparse ladder are functions with the contract that an
  accepted reparse equals the full parse.
- **Tracked inputs** (`TrackedInputs`). Path-keyed inputs, identities, guarded
  writes, and the canonical member list.
- **File and folder renames** (`Paths`, `Renames`, `Spellings`, `SourceEdits`,
  `RenameCases`). Lexical normalization, relative spellings, fanning folder
  renames out over known files, and rewriting `source("...")` literals.
- **Lint pipeline** (`Attachment`, `Suppression`, `DirectiveEffect`,
  `RuleDispatch`, `Fixes`, `FixLoop`). Directive attachment, off/on regions, the
  suppression index, from the comments of a file to the findings that stay, table
  dispatch, splicing and the bounded fix loop.
- **Format-check cache** (`FormatCheck`). One run with a cache against one
  without, and histories of interleaved processes over one disk.
- **Scopes and calls** (`Scopes`, `ReadSites`, `CallHierarchy`, `CallCases`).
  Name lookup, cohorts, def-use edges, and call sites seen from both ends.
- **Configuration** (`ConfigMerge`, `ExtendChain`, `Versions`). Table merge,
  the `extend` chain and the order of versions.

`Common`, `Diagnostics`, `Strings` and `StableSort` are shared. Where the source
updates something in place the model has a class or a loop, proved against a
specification function; the lemmas about that function are the results.

Some promises hold only under a condition. Each is proved with the exact
condition; for several a lemma also names a case where it fails:

- `src/incremental.rs:1892-1998`: after a rename every literal should name its
  target where the batch puts it. `SourceEdits.LiteralFollowsTheBatchIff` says
  exactly when it does. It can fail in four ways. The respelling holds the quote,
  or starts like a drive (`c:a.R`) or with a backslash and is read from the
  working directory by the rule at `src/project/source.rs:302-310`
  (`SourceEdits.DriveLikeNameIsMisread`). The map does not know the target and
  aims the literal back at a folder that has moved
  (`RenameCases.UnknownTargetIsAimedBack`). A known path is itself a renamed
  folder with known files below it, and only the files are mapped
  (`Renames.KnownFolderIsLeftBehind`). Or the file is not looked at:
- The reverse map of `source()` edges covers cleanly parsed files only, and
  records a rooted-looking literal under another path than it reads. A member
  that stays put is then missed. See `SourceEdits.GraphTargetIsTargetIff`,
  `SourceEdits.BreakingMemberIsFoundIff`,
  `RenameCases.ParseErrorSourcerIsMissed` and
  `RenameCases.RootedLookingLiteralIsMissed`.
- `src/lsp/call_hierarchy.rs:13-18` says the two directions can never disagree.
  Outgoing calls resolve through the scope tree and list only the calls of the
  first of several functions with one path. Incoming ones look up the variable a
  path stands for, a bare name only in a file that the index of the workspace
  has, and go through def-use edges that respect order within a frame.
  `CallHierarchy.DirectionsAgreeIff` has the exact condition over every item and
  every definition of any file: there are five ways to disagree, and `CallCases`
  has a file for each. Three of them leave a call out of the incoming side (a
  file with a parse error, a call before its definition, a function bound inside
  an anonymous one) and two out of the outgoing side (a read that reaches another
  function than it resolves to, a call in the second of two functions with one
  name).
- `src/semantic.rs:212-214` promises the innermost scope. A scope exactly as
  long as its parent loses to the parent. See `Scopes.ShortestIsDeepestIff` and
  `Scopes.LoneFunctionIsOverlooked`.
- Merging configuration tables is not associative in general:
  `ConfigMerge.MergeAssociatesIff` says when it is, and
  `ConfigMerge.ScalarShieldsArray` is a case where it is not.
- A configuration cycle is reported when a canonical path comes back, which a
  symbolic link can cause on a chain that ends. See
  `ExtendChain.CycleReportedOnAFiniteWalk` and `ExtendChain.CycleIffEndless`.
- A `DESCRIPTION` the formatter declines has nothing to report and still is not
  recorded as clean. See `FormatCheck.CleanIffNothingToReport`.
- The printed form of a version without components does not parse back. See
  `Versions.PrintParseRoundTrip`.

## Model

| member | source | states |
|---|---|---|
| `ParseCache.EveryInterleavingIsSound` | src/incremental.rs:384-463 | after any sequence of text writes, flag writes, stagings and single stages of any number of running parses: every stored parse is the full parse of its own text under its own flag, every finished parse is the full parse of the input it read, no staging is taken twice, precise hits never exceed hits |
| `ParseHistory.ParseIsOfWhatWasWritten` | src/incremental.rs:384-463 | in any run a parse that has its outcome has the full parse of the text last written to its file, under the flag last set for it, off if it never was, when that parse began |
| `ParseHistory.RunsExtend` | src/incremental.rs:384-463 | any sequence of shared accesses is a run as long as flags are set and parses begun for tracked files only, each parse begins once, and takes, computes, counts twice and stores in that order |
| `ParseHistory.InputsAreWhatWasWritten` | src/incremental.rs:850-866 | what a handle reads of a file is the text of the last text write to it in the run, and the flag of the last flag write; a file is there exactly when a text was written to it |
| `ParseHistory.TasksReadWhatWasWritten` | src/incremental.rs:390-392 | a parse is running or done exactly when an action began it, of the file named there, and keeps what was last written to that file by then |
| `ParseHistory.StagedIsWhatWaits` | src/incremental.rs:2116-2133 | what is staged for a file is the last nonempty staging for it since which nothing was staged for it and no parse of it took anything; otherwise nothing is |
| `ParseHistory.OutcomesAreDecided` | src/incremental.rs:384-463 | every parse took what waited for its file when it took, and its outcome is the decision on that, on what it read, and on what was cached at its computing step |
| `ParseHistory.CachedIsWhatWasStored` | src/incremental.rs:2095-2115 | a file has a cached parse as soon as one of it was stored, of what the parse that was stored last had read |
| `ParseHistory.CacheIsOfWhatWasWritten` | src/incremental.rs:2095-2115 | that cached parse is the full parse of the text and the flag last written when the parse stored last began |
| `ParseHistory.CountersAreExact` | src/incremental.rs:2103-2115 | the counters are the number of incremental parses past their hit and of precise ones past their precise hit |
| `ParseCache.ReusesIff` | src/incremental.rs:400-440 | a parse is incremental exactly when another text is cached under the same flag and the strategies accept the staged chain or the one recovered edit; precise exactly when they accept the chain |
| `ParseCache.ChainAcceptedIff` | crates/arity-parser/src/parser/reparse.rs:341-373 | a chain of reparses is accepted exactly when it is not empty, its edits lead to the target, and each edit is accepted on the full parse of the text before it |
| `ParseCache.ScratchIsFaithful` | crates/arity-parser/src/parser/reparse.rs:322-373 | the contract of the ladder can be kept, by never applying or by parsing from scratch |
| `ParseCache.NextKeepsInvariant` | src/incremental.rs:2095-2133 | each single shared access by any handle keeps that invariant |
| `ParseCache.RunKeepsInvariant` | src/incremental.rs:2095-2133 | every reachable state satisfies the invariant |
| `ParseCache.NextKeepsTickets` | src/incremental.rs:2116-2133 | a staging is either still staged or was taken by one parse, never both or twice |
| `ParseCache.NextKeepsOutcomes` | src/incremental.rs:384-463 | stored and computed parses stay full parses, and a precise outcome is an incremental one |
| `ParseCache.NextKeepsCounters` | src/incremental.rs:2103-2115 | precise hits plus the precise parses whose hit is counted but whose precise hit is not yet stay within the hits, so the two separate counter updates cannot be caught out of order |
| `ParseCache.DecideIsFullParse` | src/incremental.rs:384-463 | whatever is cached and staged the outcome is the full parse, and it is precise only when the staged edits turn the cached text into the input |
| `ParseCache.ChainIsFullParse` | crates/arity-parser/src/parser/reparse.rs:322-373 | a chain of incremental reparses that is accepted gives the full parse of the target, and its edits do transform the text |
| `ParseCache.ReparseEdits` | crates/arity-parser/src/parser/reparse.rs:341-373 | the loop over staged edits computes that chain |
| `ParseCache.SharedDatabase.Parse` | src/incremental.rs:384-463 | the branches of a parse: staged edits first, then the recovered edit, then from scratch; nothing incremental when the text is unchanged or the flag differs |
| `ParseCache.SharedDatabase.ParsedDocument` | src/incremental.rs:384-463 | an uninterrupted parse returns the full parse, consumes the staging, stores exactly what it parsed and counts each kind of hit once |
| `ParseCache.SharedDatabase.ReparseStore` | src/incremental.rs:2103-2115 | storing is three shared accesses of the state machine, in the order hits, precise hits, map |
| `ParseCache.SharedDatabase.TakePendingEdits` | src/incremental.rs:2128-2133 | taking removes the staging, whatever it was |
| `ParseCache.SharedDatabase.Stage` | src/incremental.rs:2116-2127 | staging replaces what was staged; an empty edit list unstages |
| `ParseCache.SharedDatabase.SetFileText` | src/incremental.rs:850-852 | the text is replaced, the flag of the file and every other file, cache entry, staging and counter stay |
| `ParseCache.SharedDatabase.SetRoxygenMarkdown` | src/incremental.rs:850-880 | the flag is written only when it changes |
| `Edits.EditsProduce` | crates/arity-parser/src/parser/reparse.rs:140-164 | the allocation-free check accepts an edit chain exactly when applying it gives the target, and is total on edits that do not fit |
| `Edits.ProducesIffApplies` | crates/arity-parser/src/parser/reparse.rs:76-124 | the piecewise comparison accepts one edit exactly when it fits and applying it gives the target |
| `Edits.DiffEdit` | crates/arity-parser/src/parser/reparse.rs:223-250 | the prefix and suffix scans compute the recovered edit |
| `Edits.DiffTransforms` | crates/arity-parser/src/parser/reparse.rs:223-250 | the recovered edit fits and transforms one text into the other |
| `Edits.DiffIsShortest` | crates/arity-parser/src/parser/reparse.rs:223-250 | no edit that fits and gives the new text removes or inserts fewer characters than the recovered one |
| `Edits.DiffIsTight` | crates/arity-parser/src/parser/reparse.rs:223-250 | removed and inserted text differ in their first and in their last character |
| `Edits.AppliedInTurn` | crates/arity-parser/src/parser/reparse.rs:140-164 | one edit replaces its span if it has one in the text, and a chain is applied edit by edit |
| `Edits.MappedInTurn` | crates/arity-parser/src/parser/reparse.rs:188-196 | a range is mapped through a chain edit by edit, and given up as soon as one of them gives it up |
| `Edits.MappedRangeKeepsItsText` | crates/arity-parser/src/parser/reparse.rs:172-210 | a range mapped through a chain of edits covers the same characters in the new text |
| `Edits.MappedUnlessTouched` | crates/arity-parser/src/parser/reparse.rs:172-192 | a range is given up exactly when the replaced text reaches into it |
| `TrackedInputs.Database.UpsertFile` | src/incremental.rs:1215-1262 | the input returned is shared by exactly the tracked paths that normalize alike; the revision moves by one exactly when a tracked text is rewritten with a different one; every handle stays good |
| `TrackedInputs.Database.AddFile` | src/incremental.rs:841-848 | a pathless document gets an identity no other file has |
| `TrackedInputs.Database.LookupFile` | src/incremental.rs:1268-1275 | lookup finds the input of the normalized path and never inserts |
| `TrackedInputs.Database.SetWorkspaceMembers` | src/incremental.rs:964-1013 | the stored list is the canonical one; the revision moves by the number of fields that change, and the discovery counter only when one does |
| `TrackedInputs.Database.TrackedListsAreStoredAlikeIff` | src/incremental.rs:964-1013 | two member lists of tracked files are stored alike exactly when they hold the same files, whatever order and repetition, and strictly increasing in file identity |
| `TrackedInputs.CanonicalIffSameFiles` | src/incremental.rs:964-1013 | the same for any lists whose handles are told apart by identity |
| `TrackedInputs.CanonicalIsIncreasing` | src/incremental.rs:964-1013 | the stored list is strictly increasing in file identity |
| `TrackedInputs.ReseedingWritesNothingIff` | src/incremental.rs:964-1013 | re-seeding writes nothing exactly when the files and the roots are the same |
| `Paths.NormalizePath` | src/incremental.rs:51-67 | the component loop computes the lexical normal form |
| `Paths.NormalizeIsIdempotent` | src/incremental.rs:51-67 | normalizing twice is normalizing once, and the result is a root or parent steps followed by names |
| `Paths.NormalizedIffFixed` | src/incremental.rs:51-67 | the normalized absolute paths are exactly those normalizing leaves alone |
| `Paths.NormalizeAbsorbsJoin` | src/incremental.rs:51-67 | normalizing a directory before joining a path onto it does not change where the join leads |
| `Paths.ParentIff` | src/incremental.rs:1935-1960 | the directory of a path is what its last component, if that is not the root, is joined onto |
| `Paths.RelativePath` | src/project/source.rs:348-376 | the two component loops compute the relative spelling |
| `Paths.RelativeExistsIff` | src/project/source.rs:348-376 | there is a relative spelling exactly when only names are left behind |
| `Paths.RelativeLeadsToTarget` | src/project/source.rs:348-376 | joined back onto the directory and normalized it is the target, and it consists of parent steps and names of the target |
| `Renames.ExpandDirRenames` | src/incremental.rs:85-121 | the two passes compute the map of `FansOutIffExpansion`, both as told from the batch as it was sent and as told from its normalized pairs: claimed known paths are rebased, pairs that claimed nothing stay, and a staying pair beats a claim on its path |
| `Renames.PairsAreTheRenames` | src/incremental.rs:89-93 | the pairs worked on are the normalized renames of the batch that change something: every one of them, and no other |
| `Renames.PairsKeepOrder` | src/incremental.rs:89-93 | in the order of the batch |
| `Renames.FansOutIffExpansion` | src/incremental.rs:85-121 | told from the renames as they were sent: the map holds each rename that takes no known path along, the last where several name one path, and each known path below a renamed folder, with the new path of the deepest such folder, the last sent on a tie, in front; of the two a rename that names the path wins |
| `Renames.DeepestRenameDecides` | src/incremental.rs:85-121 | where the batch takes a path is decided by the deepest rename, as sent, that names it or a folder above it |
| `Renames.UnreachedStays` | src/incremental.rs:85-121 | and a path with no such rename stays |
| `Renames.FindClaim` | src/incremental.rs:97-112 | the deepest renamed folder strictly above a path claims it, the later pair on a tie |
| `Renames.MovesToItsDestination` | src/incremental.rs:85-121 | for distinct old paths the batch moves a path to one place: its own new path, or below its deepest renamed folder with its suffix kept, or nowhere |
| `Renames.ExpansionIsAim` | src/incremental.rs:85-121 | the pairs and the known paths alone decide which paths the map holds and where it takes each |
| `Renames.ImageFollowsBatchIff` | src/incremental.rs:85-121 | the map takes a path there exactly when a pair that names it is kept or agrees with the folder above it, or when no pair names it and it is known or below no pair |
| `Renames.ExpansionMovesKnownFiles` | src/incremental.rs:85-121 | so a known path goes where the batch sends it unless a pair that names it was taken for a folder and the folder above does not happen to take it there |
| `Renames.UnknownPathFollowsIff` | src/incremental.rs:85-121 | an unknown path that no pair names goes where the batch sends it exactly when no pair lies above it |
| `Renames.KnownFolderIsLeftBehind` | src/incremental.rs:85-121 | a case of the first failure: with `/R` and `/R/a.R` known, renaming `/R` to `/S` moves the file and leaves `/R` unmapped |
| `Renames.PairKeptIffItClaimsNothing` | src/incremental.rs:113-121 | a pair stays as written exactly when it claimed nothing, and then overrides a folder claim |
| `Renames.ExpansionIgnoresOrder` | src/incremental.rs:85-121 | with distinct old paths the result does not depend on the order of the pairs or of the known paths |
| `Spellings.RenderReadsBack` | src/incremental.rs:1892-1998 | a path written with forward slashes is read back as the same path |
| `Spellings.RelativeSpellingIff` | src/project/source.rs:302-310 | a spelling is relative exactly when it starts neither with a slash nor with a backslash nor with a letter and a colon |
| `Spellings.RenderedAbsoluteIsRooted` | src/project/source.rs:302-310 | an absolute path is never written so that it looks relative |
| `SourceEdits.SourceRenameEdits` | src/incremental.rs:1892-1998 | the edits are those of every literal of every candidate file, each file once, and every literal of every member, cleanly parsed or not, follows the batch exactly when the condition of `LiteralFollowsTheBatchIff` holds; every edit keeps the quotes of the literal it replaces |
| `SourceEdits.EditReplacesLiteral` | src/incremental.rs:1980-1998 | every edit replaces one literal of a member whole, by another text in the same quotes that does not hold the quote |
| `SourceEdits.RespellingKeepsShape` | src/incremental.rs:1960-1980 | a relative literal is respelled as the relative path to its target where there is one, a rooted one as the target itself |
| `SourceEdits.Rewrite` | src/incremental.rs:1935-1998 | the branches for one literal: settled literals, unusable respellings, relative and absolute spellings |
| `SourceEdits.LiteralFollowsTheBatchIff` | src/incremental.rs:1892-1998 | told from the workspace and the batch alone: when a literal is replaced, and that once file and target are where the batch moves them it names the target exactly when the text it ends up with leads there. Where the code takes the target to the right place, a respelling does exactly when it is rooted, or the directory it was made for and the one the file is in meet where it stops climbing, or it strays and happens to hit. Where the code also takes the file to the right directory: exactly when the text as written leads there or the file is looked at and the respelling is usable |
| `SourceEdits.LookedAtIsCandidate` | src/incremental.rs:1905-1934 | the files looked at are the members that move and the cleanly parsed ones the graph has sourcing something that does |
| `SourceEdits.LiteralAimsAtTheMap` | src/incremental.rs:1935-1998 | against the map alone: a candidate literal is respelled exactly when it does not lead to the image of its target already and the respelling does not hold the quote, and the respelling leads there exactly when it does not stray |
| `SourceEdits.GraphTargetIsTargetIff` | src/project/source.rs:302-330 | the project graph records a literal under the path it reads exactly when the spelling is relative, or rooted, or only looks rooted and the directory of the file and the working directory meet where it stops climbing |
| `SourceEdits.CleanTargetIsFollowedIff` | src/incremental.rs:1892-1934 | the target of a literal the graph sees is known, so the batch and the map agree on it unless a pair that names it was taken for a folder |
| `SourceEdits.CleanLiteralFollowsIff` | src/incremental.rs:1892-1998 | a cleanly parsed literal whose file and target the map follows ends up right exactly when it did not break or its respelling is usable |
| `SourceEdits.RespelledReads` | src/incremental.rs:1960-1990 | a respelling reads as intended exactly when it looks relative, is absolute, or the directory is the working directory |
| `SourceEdits.DriveLikeNameIsMisread` | src/project/source.rs:302-310 | a concrete family where the promise fails without any quote: a sibling renamed to a name like `c:a.R` |
| `SourceEdits.BreakingMemberIsFoundIff` | src/incremental.rs:1905-1934 | a member with a literal that the batch breaks is looked at exactly when the member itself is mapped, or parses cleanly and the graph sees what the literal reads or records another mapped target |
| `RenameCases.UnknownTargetIsAimedBack` | src/incremental.rs:1905-1990 | `/a/f`, which does not parse, sources `x` next to it, outside the workspace; renaming `/a` to `/c` would leave the literal right, and it is rewritten to lead back into `/a` |
| `RenameCases.ParseErrorSourcerIsMissed` | src/incremental.rs:1905-1934 | `/f`, which does not parse, sources `a`; renaming `/a` to `/b` leaves the literal behind |
| `RenameCases.RootedLookingLiteralIsMissed` | src/project/source.rs:302-310 | `/d/f` sources a name that looks like one on a drive; the graph records another file than the literal reads, and renaming what it reads leaves the literal behind |
| `SourceEdits.ParentCommutes` | src/incremental.rs:1935-1960 | resolving against the directory of the raw or of the normalized file path is the same |
| `Fixes.ApplyFixes` | src/linter/fix.rs:27-65 | filter, sort, sweep and right-to-left splicing give the left-to-right assembly of untouched gaps and replacements |
| `Fixes.Splice` | src/linter/fix.rs:52-60 | splicing ordered spans from the right equals assembling from the left |
| `Fixes.Sweep` | src/linter/fix.rs:37-51 | the sweep accepts what the greedy definition accepts, and accepted plus skipped is everything eligible |
| `Fixes.AcceptIsOrdered` | src/linter/fix.rs:37-51 | accepted spans are in order, inside the text and disjoint |
| `Fixes.AcceptedIsMaximal` | src/linter/fix.rs:37-51 | the accepted fixes are offered, well formed, disjoint, and safe unless unsafe ones are asked for; every other such fix overlaps an accepted one that starts earlier, or there too and ends no later |
| `Fixes.OutcomeIsAccounted` | src/linter/fix.rs:27-65 | applied plus skipped is the number of eligible fixes, and the output length is the old length plus what the accepted fixes add |
| `Fixes.AssembleLength` | src/linter/fix.rs:52-60 | the length of the assembly |
| `Fixes.AppliesIffSomethingFits` | src/linter/fix.rs:37-65 | something is applied exactly when some eligible fix is well formed |
| `Fixes.OrderOfFixesDoesNotMatter` | src/linter/fix.rs:27-51 | reordering the input changes neither counts nor accepted spans, nor the output when eligible spans are distinct |
| `FixLoop.FixSource` | src/main.rs:1247-1271 | at most ten rounds; the text is the composition of their splices, the total their sum, and stopping early means linting failed or nothing applies |
| `FixLoop.TenRoundsAtMost` | src/main.rs:45 | there are at most ten rounds, and fewer only when the text reached is settled |
| `FixLoop.SettledMeans` | src/main.rs:1247-1271 | a text is settled exactly when linting it fails or every fix its findings carry is unsafe and not asked for, or does not fit the text |
| `FixLoop.OfferedAreCarried` | src/main.rs:1247-1271 | the fixes tried are those the findings carry, all of them |
| `FixLoop.FixSourceInProject` | src/main.rs:1213-1245 | the same where linting sees every tracked file: each round lints the buffer among its unchanged siblings, and at the end the tracked buffer holds the fixed text and every other file is as it was |
| `FixLoop.SettledIffNoRound` | src/main.rs:1247-1271 | no round is possible exactly when linting fails or no offered fix can be applied |
| `FixLoop.FixingAgainIsNoOpIff` | src/main.rs:45 | fixing a fixed text applies nothing exactly when linting it fails or nothing it offers applies, which the cap alone can prevent |
| `FixLoop.FixingIsDeterministic` | src/main.rs:1247-1271 | the text and the total are determined by the input |
| `Suppression.SuppressionMap.CloseRegions` | src/linter/suppression.rs:340-369 | the loop leaves each directive as the search for its closer says |
| `Suppression.SearchIsAutomaton` | src/linter/suppression.rs:340-369 | that search equals a one-pass automaton keeping the open regions of each prefix: one `on` closes all of them, and is matched exactly when it closes one |
| `Suppression.OnePassAgrees` | src/linter/suppression.rs:340-369 | after any prefix the automaton has open exactly the `off`s without a later `on` of their prefix |
| `Suppression.OffCoversToFirstOn` | src/linter/suppression.rs:340-369 | with comments in source order the region bounds never cross, and an `off` covers exactly what lies after it and before every later `on` of its prefix |
| `Suppression.SuppressionMap.Filter` | src/linter/suppression.rs:212-227 | exactly the unsuppressed findings stay, in order, and a directive is marked used exactly when it hides some input finding |
| `Suppression.SuppressionMap.IsSuppressed` | src/linter/suppression.rs:199-211 | the indexed answer is that of a scan of all directives |
| `Suppression.SuppressionMap.Hits` | src/linter/suppression.rs:228-258 | the directives found through the indices are exactly those that hide the finding |
| `Suppression.SuppressionMap.CandidatesAreTheScan` | src/linter/suppression.rs:228-245 | the all-rules and by-rule indices together are the directives a scan would consider |
| `Suppression.IndexedExactly` | src/linter/suppression.rs:315-332 | each index lists exactly the active directives of its scope |
| `Suppression.SuppressionMap.Build` | src/linter/suppression.rs:151-198 | building keeps every recognized directive and every malformed comment in order, closes the regions and indexes the result |
| `Suppression.FilterIsIdempotent` | src/linter/suppression.rs:212-227 | filtering again removes nothing and uses no directive |
| `Suppression.DirectiveFindingStaysIff` | src/linter/suppression.rs:246-264 | a finding on a directive comment, recognized or malformed, stays exactly when no directive that names its rule covers it, whatever blanket directives do |
| `DirectiveEffect.FilterFile` | src/linter/suppression.rs:151-258 | from the comments of a file to the findings that stay: a finding is dropped, and a directive counts as used, exactly as `DroppedIff` and `UsedIff` say |
| `DirectiveEffect.DroppedIff` | src/linter/suppression.rs:199-369 | a finding is dropped exactly when some comment that names its rule, or is a blanket one with the finding on no directive, well formed or not, and is for the linter or for both tools, skips the file, or skips a target that contains the finding, or is an `off` that ends before the finding, where the first `on` of its prefix after it, or else the end of the file, comes no earlier than the end of the finding |
| `DirectiveEffect.UsedIff` | src/linter/suppression.rs:212-227 | a directive counts as used exactly when some finding is dropped on its account |
| `DirectiveEffect.HidesIff` | src/linter/suppression.rs:246-369 | one directive, as placed, closed and indexed, hides a finding exactly when its comment says so |
| `Attachment.NextMeaningfulSibling` | src/linter/suppression.rs:436-475 | the cursor loop ends, and its answer is the first later position on the way out to the nearest argument list that is not stepped over; none when there is no such position |
| `Attachment.TargetIsNextMeaningful` | src/linter/suppression.rs:436-475 | the target starts at or after the comment ends, stays in the enclosing argument list, and everything in between lies in trivia, a comment, an argument separator or a comment-only argument |
| `Attachment.NothingMeaningfulFollows` | src/linter/suppression.rs:436-475 | where nothing is attached, everything after the comment inside the argument lists around it lies in something stepped over |
| `Attachment.SomethingIsTheAnswer` | src/linter/suppression.rs:436-475 | there always is an answer |
| `Attachment.SteppedOverIff` | src/linter/suppression.rs:440-462 | blanks and comments are stepped over anywhere, and among arguments commas and arguments of comments only |
| `Attachment.CommentOnlyArgIff` | src/linter/suppression.rs:452-462 | an argument counts as comments only exactly when it is not empty, has no name, and its value is missing or a roxygen block |
| `Attachment.AttachmentIsDetermined` | src/linter/suppression.rs:436-475 | that description has one answer |
| `Attachment.PrecedesByOffset` | src/linter/suppression.rs:436-475 | document order of tree positions is order of offsets |
| `Attachment.DcfAttachesIsTheWalk` | src/linter/suppression.rs:401-434 | in a `DESCRIPTION` the target is the field whose value the comment interrupts, and otherwise the first later sibling line that is neither comment nor blank, or the first such line in it when it is a record; none exactly when there is no such line, or the record it enters has none |
| `Attachment.DcfFieldIff` | src/linter/suppression.rs:404-420 | it is the enclosing field exactly when a value line of that field follows the line of the comment |
| `Attachment.NextLineIff` | src/linter/suppression.rs:423-434 | the next line is the first node that is neither a comment line nor a blank one |
| `Attachment.DcfTargetIsFieldOrLaterLine` | src/linter/suppression.rs:401-434 | that line starts at or after the end of the comment |
| `RuleDispatch.ResolvedRules.RunRules` | src/linter/rules.rs:960-1035 | the report is the stable sort by start, end and rule of the unsuppressed findings of asking every rule at every element and file, plus the unsuppressed findings of the post-pass, which sees the usage fixed by the first filter |
| `RuleDispatch.ReportedIff` | src/linter/rules.rs:960-1051 | from the comments of a file to its report: a diagnostic is in it exactly when no comment tells the linter to drop it, as `DirectiveEffect.DroppedIff` has it, and, but for the severity set for its rule, some rule says it of an element it is interested in, of the file, or in the post-pass of which directives are used |
| `RuleDispatch.RawFindingsAre` | src/linter/rules.rs:960-1010 | the findings of the traversal are what some rule says of some element whose kind it is interested in, or of the file |
| `RuleDispatch.NodeFindingsInOrder` | src/linter/rules.rs:960-1010 | in the order of the elements |
| `RuleDispatch.ReportIsInOrder` | src/linter/rules.rs:1037-1051 | a report goes by start, then by end, then by rule, a rule coming before another when it is a prefix of it or has the lower first differing character |
| `RuleDispatch.ResolvedRules.RunDcfRules` | src/linter/rules.rs:1094-1130 | the same without a post-pass |
| `RuleDispatch.ResolvedRules.WithConfig` | src/linter/rules.rs:839-888 | from the chosen rules: each grammar's rules with a table that lists them by kind, the severity of every chosen id, and the set of chosen ids |
| `RuleDispatch.SplitByGrammar` | src/linter/rules.rs:849-856 | every chosen rule lands in the list of its own grammar and in no other |
| `RuleDispatch.SeveritiesAre` | src/linter/rules.rs:840-847 | an id has a severity exactly when a chosen rule carries it, and it is that of the last such rule |
| `RuleDispatch.ReportedSeverityIsTheRules` | src/linter/rules.rs:1012-1051 | with distinct ids a reported finding has the severity of the registered rule it names, if the configuration chooses that rule |
| `RuleDispatch.BuildTable` | src/linter/rules.rs:839-888 | row `k` lists the rules interested in kind `k`, in rule order, once per mention; the flag says whether any rule has interests |
| `RuleDispatch.TableAgreesWithAsking` | src/linter/rules.rs:960-1010 | dispatch through a row says what asking every rule would say, when no rule repeats an interest |
| `RuleDispatch.ResolvedRules.Resolve` | src/linter/rules.rs:909-940 | the rule set is the one `WithConfig` makes of the rules the configuration chooses, in registry order, and unknown names are reported |
| `RuleDispatch.ChosenAre` | src/linter/rules.rs:926-935 | a registered rule is chosen exactly when it is selected, on by default without a selection, or added, and not ignored |
| `RuleDispatch.RuleRunsIff` | src/linter/rules.rs:849-935 | a rule is in the list of its grammar exactly when it is registered, its id is selected, added or on by default without a selection, and it is not ignored |
| `RuleDispatch.RunningRulesSeverity` | src/linter/rules.rs:840-847 | with distinct ids the severity stamped for a rule that runs is its own |
| `RuleDispatch.EnabledIffChosen` | src/linter/rules.rs:840-847 | an id is enabled exactly when a rule that carries it is chosen |
| `RuleDispatch.UnknownIff` | src/linter/rules.rs:909-950 | a name is reported as unknown exactly when it is selected, added or ignored and no registered rule has it |
| `RuleDispatch.UnknownMembers` | src/linter/rules.rs:909-950 | the unknown names are exactly those mentioned that no rule has, each once |
| `RuleDispatch.StampAndSort` | src/linter/rules.rs:1037-1051 | severities are stamped and the result is stably sorted |
| `RuleDispatch.ReportIsDetermined` | src/linter/rules.rs:960-1051 | there is only one such report |
| `StableSort.SortIsStable` | src/linter/rules.rs:1037-1051 | what the sort promises: order, and ties in input order |
| `StableSort.StablySortedIsUnique` | src/linter/rules.rs:1037-1051 | a sequence has one stable ordering |
| `FormatCheck.CheckPaths` | src/formatter/check.rs:221-359 | the report is the one `UncachedReports` describes of all that was discovered, in path order, and with a sound cache it is that of the uncached run; the cache gains exactly the clean contents seen, stays sound, and is written when it changed; without paths, with a discovery error or without files nothing is written or recorded |
| `FormatCheck.UncachedReports` | src/formatter/check.rs:250-359 | in a report a file is among the changed exactly when some file has that path, its text is the original given and its grammar's formatter turns it into the other text given; failed and skipped files and outdated directives are told likewise from what reading and formatting each file gives; the checked, failed and skipped files add up to all of them |
| `FormatCheck.LocatedAre` | src/formatter/check.rs:324-332 | an outdated directive is on the line one more than the newlines before it, in the column one more than what follows the last of them |
| `FormatCheck.ReportIsInPathOrder` | src/formatter/check.rs:240-250 | each list of a report goes by path |
| `FormatCheck.LearnedAreClean` | src/formatter/check.rs:334-345 | a run adds to the cache exactly the keys of the files it read that have nothing to report, but for a declined `DESCRIPTION` |
| `FormatCheck.CheckFile` | src/formatter/check.rs:250-345 | one file with a sound cache has the verdict of `Verdict`, and is recorded only when it has nothing to report |
| `FormatCheck.VerdictIsUncached` | src/formatter/check.rs:250-345 | with a sound cache that verdict is the one without a cache |
| `FormatCheck.CleanIffNothingToReport` | src/formatter/source.rs:111-160 | a clean key means nothing to report; the converse holds except for a `DESCRIPTION` the formatter declines |
| `FormatCheck.EveryHistoryIsSound` | src/formatter/cache.rs:68-114 | over every history of runs, releases, damaged files and interleaved processes, what any check loads or holds names only clean contents |
| `FormatCheck.NextKeepsSoundness` | src/formatter/cache.rs:68-114 | each single step of such a history keeps that |
| `FormatCheck.EveryRunReportsUncached` | src/formatter/check.rs:221-359 | at any moment of any history, everything a running check has to report on the files it has been through is what a run without a cache reports on them |
| `FormatCheck.FormatCache.Load` | src/formatter/cache.rs:68-83 | missing, stale or damaged files load as empty |
| `FormatCheck.FormatCache.RecordFixedPoint` | src/formatter/cache.rs:91-98 | recording marks the cache dirty exactly when the key is new |
| `FormatCheck.FormatCache.Store` | src/formatter/cache.rs:100-130 | a clean cache writes nothing; a dirty one replaces its slot and clears other versions |
| `FormatCheck.StoredIsLoaded` | src/formatter/cache.rs:68-130 | what is stored is what its slot loads next; other styles of the release load what they did, other releases nothing |
| `FormatCheck.LoadedAreCurrent` | src/formatter/cache.rs:68-83 | a slot loads the keys of its file exactly when that file decodes and has the current schema |
| `FormatCheck.HistoriesExtend` | src/formatter/cache.rs:68-114 | any sequence of starts, checks, stores, damage and stale files is a history as long as a check starts once and only a started one checks and stores |
| `FormatCheck.ProcessIsItsActions` | src/formatter/cache.rs:68-114 | over any history a running check has been through the files its own actions say, knows what its slot held when it started and the clean ones among those files, and is dirty exactly when that is more than it loaded |
| `FormatCheck.PersistedIsLoaded` | src/formatter/cache.rs:100-130 | a check that learned something leaves what it knows for the next one of its slot |
| `FormatCheck.MergeIsPathOrder` | src/formatter/source.rs:25-28 | files of both grammars are checked in path order |
| `Scopes.SemanticModel.ResolveLocal` | src/semantic.rs:263-272 | the indexed walk finds what a scan of each scope in declaration order, from the inside out, finds |
| `Scopes.ResolveIff` | src/semantic.rs:263-272 | a name resolves to the first binding of it in the nearest scope around that declares one |
| `Scopes.KeyDropsBackticks` | src/semantic/symbols.rs:52-70 | a name in backticks means what it means without them; only a surrounding pair is taken off |
| `Scopes.SemanticModel.InnermostScopeAt` | src/semantic.rs:215-228 | the search returns the first of the shortest scopes holding the offset, or the file scope |
| `Scopes.LastHolderIsDeepest` | src/semantic.rs:215-228 | with nested ranges the scopes holding an offset form a chain, whose last-opened member is the deepest |
| `Scopes.ShortestIsDeepestIff` | src/semantic.rs:215-228 | the search finds that deepest scope exactly when it is strictly shorter than its parent; on a tie an outer scope wins |
| `Scopes.LoneFunctionIsOverlooked` | src/semantic.rs:215-228 | a case of the tie: in a file that is one function literal the search stays at the file scope |
| `Scopes.SemanticModel.NamesInScopeAt` | src/semantic.rs:234-251 | each visible name once, with the kind of its innermost first declaration |
| `Scopes.ListedNamesAreWhatResolves` | src/semantic.rs:234-272 | without backticks the listed names are exactly those that resolve from the scope, with the kind of the binding resolution returns |
| `Scopes.ListedKindIsResolvedIf` | src/semantic.rs:234-272 | with backticks the kind agrees whenever resolution returns a binding spelled alike |
| `Scopes.SemanticModel.PushBinding` | src/semantic/builder.rs:1572-1598 | declaring a binding extends scope, list and name index together |
| `Scopes.SemanticModel.PushScope` | src/semantic/builder.rs:1556-1570 | opening a scope keeps the index exact |
| `Scopes.SemanticModel.FrameScope` | src/semantic.rs:279-290 | the walk outward computes the frame |
| `Scopes.FrameIsNearestRoot` | src/semantic.rs:274-290 | the frame is the nearest enclosing function or file scope and its own frame |
| `Scopes.CohortIs` | src/semantic.rs:297-307 | a cohort is every binding of the same name in the same frame, in the order of the bindings |
| `Scopes.CohortsPartition` | src/semantic.rs:297-307 | cohorts partition the bindings |
| `ReadSites.ReadsReached` | src/semantic/builder.rs:1661-1721 | the indexed walk computes the bindings a read can mean: those of the innermost scope that has any, ordered before, looped around or deferred within the frame |
| `ReadSites.ReachedIff` | src/semantic/builder.rs:1661-1721 | a read reaches exactly the bindings it can mean in the nearest scope around that has any: of its name, not itself, and, in its own frame, assigned before it, in a loop around it, or when the read is deferred |
| `ReadSites.ResolveReads` | src/semantic/builder.rs:1600-1616 | one pass fills the bindings of every read and the reads of every binding, in read order |
| `ReadSites.VariableReadsAre` | src/lsp/navigation.rs:688-707 | the gathered spans are exactly those of reads that reach some member of the cohort |
| `ReadSites.VariableReadsInOrder` | src/lsp/navigation.rs:688-707 | they go by start, and no two neighbours are the same |
| `ReadSites.ReachedIsResolvedIffLive` | src/semantic/builder.rs:1661-1721 | where each variable is bound once, a read reaches exactly what it resolves to if and only if it can see that binding |
| `CallHierarchy.FunctionDefs` | src/lsp/call_hierarchy.rs:112-188 | the two passes collect the named function literals, the scope each owns and its chain of enclosing names |
| `CallHierarchy.DefsAreTheNamedLiterals` | src/lsp/call_hierarchy.rs:142-166 | there is a definition for each assigned or super-assigned binding whose value is a function literal, and no other |
| `CallHierarchy.LastTargetStands` | src/lsp/call_hierarchy.rs:118-130 | of several assignments recorded at one span the last stands |
| `CallHierarchy.OpensLastOfSpan` | src/lsp/call_hierarchy.rs:118-130 | a function literal opens the last function scope of its span |
| `CallHierarchy.OwnerIsFirstToOpen` | src/lsp/call_hierarchy.rs:150-155 | a scope is owned by the first definition whose literal opens it |
| `CallHierarchy.TopLevelPath` | src/lsp/call_hierarchy.rs:168-184 | a function bound at top level is addressed by its bare name |
| `CallHierarchy.NestedPathExtendsOwner` | src/lsp/call_hierarchy.rs:168-184 | a function bound directly in another's body has that function's path followed by its own name |
| `CallHierarchy.EnclosingFunction` | src/lsp/call_hierarchy.rs:812-825 | the walk outward returns the owner of the innermost owned scope around the call, stepping past anonymous functions, as `ScriptCallIff` and `FunctionCallIff` tell it |
| `CallHierarchy.OwnerIsNearest` | src/lsp/call_hierarchy.rs:812-825 | that scope is around the call and no owned scope lies in between |
| `CallHierarchy.NoOwnerIff` | src/lsp/call_hierarchy.rs:803-825 | there is no owner exactly when no scope around is owned, anonymous functions being stepped past |
| `CallHierarchy.ScriptCallIff` | src/lsp/call_hierarchy.rs:803-825 | a call belongs to the script exactly when the scope of no named function is around it |
| `CallHierarchy.FunctionCallIff` | src/lsp/call_hierarchy.rs:803-825 | and to a named function exactly when the scope of that function is the nearest one of a named function around it |
| `CallHierarchy.PathNamesOwners` | src/lsp/call_hierarchy.rs:168-184 | a path is the names of the named functions around the binding, outermost first, whatever anonymous ones lie between, and then its own name |
| `CallHierarchy.GroupsCollect` | src/lsp/call_hierarchy.rs:575-588 | a group holds exactly its key's call sites, in the order found |
| `CallHierarchy.IncomingCalls` | src/lsp/call_hierarchy.rs:466-518 | nothing calls the script; a nested path is looked up in its own file; a bare name is looked up there only if the index of the workspace has the file |
| `CallHierarchy.CollectIncoming` | src/lsp/call_hierarchy.rs:529-590 | the loop groups every callee-position reference under its caller |
| `CallHierarchy.OutgoingCalls` | src/lsp/call_hierarchy.rs:623-720 | the loop groups the item's own calls by the function they resolve to; nothing when the path names no definition |
| `CallHierarchy.ResolveCallee` | src/lsp/call_hierarchy.rs:737-768 | a callee resolves through the first read at its span and the scope tree, and a local non-function to nothing |
| `CallHierarchy.EachCallHasOneCaller` | src/lsp/call_hierarchy.rs:639-692 | a call is listed by its caller alone, and by its caller exactly when no earlier definition has the path of the caller and the literal of the caller holds the call |
| `CallHierarchy.CallerListsIff` | src/lsp/call_hierarchy.rs:639-692 | where scopes lie in their parents and calls in their scopes, as in a file that parses, only a shared path keeps a caller from listing a call |
| `CallHierarchy.DirectionsByPath` | src/lsp/call_hierarchy.rs:13-18 | for any two items of any file: a call is outgoing under a path exactly when its caller lists it and its callee resolves to a function with that path, and incoming exactly when the path is searched and a read at the call reaches the variable the path stands for; both for the caller alone |
| `CallHierarchy.DirectionsAre` | src/lsp/call_hierarchy.rs:13-18 | with distinct paths, for a function nested under a name or bound at top level: outgoing calls list a call under it exactly when the caller lists its calls and the callee resolves to that very binding, incoming calls exactly when the path is searched and a read reaches the variable of the function |
| `CallHierarchy.DirectionsAgreeIff` | src/lsp/call_hierarchy.rs:13-18 | in any file the two directions agree on a call, for every item and every definition, except in five ways: its caller does not list it and a read reaches what some searched path stands for; or its caller lists it, and the function it resolves to has a bare name in a file that is not indexed, or a variable that no read reaches, or a path that stands for no variable or for another that no read reaches, or a read reaches what the searched path of another definition stands for |
| `CallHierarchy.FindableIffItself` | src/lsp/call_hierarchy.rs:489-518 | with distinct paths, and only functions opening scopes as in the builder, a definition's path stands for its own variable exactly when it is nested under a name or bound at top level |
| `CallHierarchy.DirectionsAgreeWhereBoundOnce` | src/lsp/call_hierarchy.rs:13-18 | with one binding per variable, one read at the call and distinct paths, for a call that its caller lists: they agree exactly when the call does not resolve to a definition that is not searched; sees what it resolves to, or neither resolves to nor reaches a findable function; and, for a function bound inside an anonymous one, neither resolves to it nor reaches what its bare name stands for, or does both without seeing what it resolves to |
| `CallHierarchy.AnonymousPathIsBare` | src/lsp/call_hierarchy.rs:168-184 | a function bound directly in a top-level anonymous function is addressed by its bare name |
| `CallHierarchy.UnfindableIsMissed` | src/lsp/call_hierarchy.rs:489-518 | a function bound inside an anonymous one has a bare name for a path, and its calls are missing from its incoming side |
| `CallCases.EarlyCallIsListedOneWay` | src/lsp/call_hierarchy.rs:13-18 | `f(); f <- function() 1`: the call is outgoing and not incoming |
| `CallCases.ShadowedCallIsListedOneWay` | src/lsp/call_hierarchy.rs:13-18 | `g <- function() { f(); f <- 1 }; f <- function() 2`: the call is incoming to the outer `f` and not outgoing from `g` |
| `CallCases.ReboundCallIsListedOneWay` | src/lsp/call_hierarchy.rs:13-18 | `f <- 1; f <- function() 2; f()`: the call is incoming to `f` and not outgoing |
| `CallCases.AnonymousCallIsListedOneWay` | src/lsp/call_hierarchy.rs:13-18 | `lapply(xs, function(x) { h <- function() 1; h() })`: the call of `h` is outgoing and not incoming |
| `CallCases.HiddenCallIsListedOneWay` | src/lsp/call_hierarchy.rs:13-18 | `g <- function() 1; g <- function() f(); f <- function() 2`: the call is incoming to `f` from `g` and not outgoing from `g` |
| `CallCases.LateCallAgreesIffIndexed` | src/lsp/call_hierarchy.rs:497-512 | `f <- function() 1; f(); )`: the directions agree on the call exactly if the file is indexed, and it is not, since its last token does not parse |
| `CallCases.MethodCallAgrees` | src/semantic/builder.rs:888-917 | `print.foo <- function(x, y) NextMethod()`, where the reads made up for the formals share a span, is covered like any other file |
| `CallCases.MappedCallBelongsToFunction` | src/lsp/call_hierarchy.rs:803-825 | `f <- function(xs) lapply(xs, function(x) g(x))`: the call of `g` belongs to `f`, and not to the script |
| `CallCases.EachWayOccurs` | src/lsp/call_hierarchy.rs:13-18 | these files show each of the five ways |
| `ConfigMerge.MergeInto` | src/config.rs:844-860 | the in-place loop over the child's keys, in whatever order, merges key by key |
| `ConfigMerge.MergedAt` | src/config.rs:844-860 | each key of the result: tables are merged in turn, arrays under `extend-exclude` and `extend-select` are joined with the inherited items first, and anything else the child sets stands |
| `ConfigMerge.MergeAssociatesIff` | src/config.rs:844-860 | three layers may be grouped either way exactly when the middle one does not shield a base value from a child value it would have combined with |
| `ConfigMerge.ScalarShieldsArray` | src/config.rs:844-860 | a case where it does: a scalar laid between two additive arrays |
| `ConfigMerge.MergeChangesIff` | src/config.rs:844-860 | the base leaves a trace exactly when it sets a key the child does not, or something the child's value is combined with |
| `ConfigMerge.AgreeingKindsShieldNothing` | src/config.rs:844-860 | where kinds agree per key path the middle layer shields nothing |
| `ConfigMerge.ChainsRegroup` | src/config.rs:836-860 | a chain of layers that agree in kind may be merged in any two parts |
| `ConfigMerge.MostDerivedWins` | src/config.rs:844-860 | in such a chain the most derived layer setting a value decides it, except that the two additive keys gather every layer's items, base first |
| `ConfigMerge.DottedKey` | src/config.rs:836-860 | a dotted key is looked up through tables only |
| `ConfigMerge.EffectiveAt` | src/config.rs:836-860 | in such a chain what a dotted key ends up as depends only on what the layers set at that key |
| `ExtendChain.LoadMergedConfig` | src/config.rs:789-841 | the recursive loader ends, with the files not yet visited as measure, and returns what the first settling step of the walk says: a cycle, the fault of a file, or the merged chain |
| `ExtendChain.WhatSettles` | src/config.rs:789-841 | the file where a load ends decides its result: opened before, unreadable, no table, an `extend` that is no text, or a table that extends nothing, on which alone the load succeeds |
| `ExtendChain.NoFileIsOpenedTwice` | src/config.rs:789-799 | no canonical path is visited twice |
| `ExtendChain.CycleIffTheWalkComesBack` | src/config.rs:790-798 | a cycle is reported exactly when following `extend` comes back to a file |
| `ExtendChain.LoadIsShort` | src/config.rs:789-841 | the settling step comes after at most as many steps as there are files |
| `ExtendChain.LoadIsDetermined` | src/config.rs:789-841 | the result and the files opened are fixed by the files on disk |
| `ExtendChain.EndlessWalkIsACycle` | src/config.rs:790-798 | a walk without end is always reported as a cycle |
| `ExtendChain.CycleIffEndless` | src/config.rs:790-798 | where two spellings of one file lead to one file, cycles are reported for exactly the endless walks |
| `ExtendChain.CycleReportedOnAFiniteWalk` | src/config.rs:790-798 | a linked file whose relative `extend` leads elsewhere from the link is reported as a cycle although the walk ends |
| `Versions.Compare` | src/config.rs:481-494 | the zero-padded loop decides by the first differing component |
| `Versions.OrderIsTotal` | src/config.rs:481-500 | comparison is a strict total order up to trailing zeros |
| `Versions.EqualIffSameStripped` | src/config.rs:475-494 | versions compare equal exactly when they are the same without trailing zeros |
| `Versions.PrintParseRoundTrip` | src/config.rs:506-531 | printing and parsing gives a version back exactly when it has a component |
| `Versions.DottedVersionParses` | src/config.rs:506-531 | `1.10-2` parses to 1, 10, 2 |
| `Versions.IncompleteVersionIsAnError` | src/config.rs:506-531 | `1.` and `x-2` do not parse |
| `Versions.DecimalParsesIff` | src/config.rs:506-531 | a component parses exactly when it is below two to the power 32 |
| `Versions.ParsedVersionsRoundTrip` | src/config.rs:506-531 | every parsed version prints and parses back, and a text parses exactly when each part between separators does |

## Left out

- Salsa: durability, cancellation, memoization and its own revision numbers. The model's revision counts writes to existing inputs; creating an input takes no write.
- The parser, the reparse ladder behind `reparse`, and the formatters: functions with stated contracts. Individual lint rules are functions from an element or a file to findings, and R semantics beyond scopes is not modelled.
- The semantic builder's walk: scopes, bindings and reads are given; only their registration, lookup and def-use resolution are modelled. Reads inside string interpolation are left out.
- Reading the directive grammar: a comment arrives as recognized, malformed or neither.
- Cross-file call edges and the workspace visibility graph: calls are followed within one file.
- Writes to package inputs and their guards (`src/incremental.rs:1014-1200`), which follow the pattern of the member list.
- Characters stand for bytes: character boundaries, UTF-8 and line indices are not modelled. Nor are escapes inside R string literals.
- Cache keys are the hashed values themselves, so hash collisions do not occur. Identities and counters are unbounded.
- Windows path prefixes, and a failing working directory lookup: the working directory is a parameter.
- Files, canonicalization, `HOME` expansion, environment variables, directory walks and gitignore are parameters; write errors are left out.
- Lint-thread scheduling, document colors, links, hints, code actions, folding, completion items, rendering and documentation: easy or presentational next to the rest.
- `format_file_verified` and the formatter's own idempotence, which are properties of the formatters.
- SourceEdits.SourceRenameEdits: does not fix the order in which candidate files are visited, because the edits of different files do not interact.
- FormatCheck.FormatCache.Store: treats the write and the removal of other versions' directories as one step, because a check loads one file at a time and both orders leave sound slots.
- SourceEdits.LiteralFollowsTheBatchIff: takes old and new paths to end in a name and a literal to name something, because the empty string is standard input.
- FixLoop.FixSourceInProject: takes the siblings as already tracked, because seeding them from disk is input.
- CallHierarchy.IncomingCalls: takes as given whether the index has the file under the path asked for, which it has for members of the workspace that parse without diagnostics.
- CallHierarchy.CollectIncoming: groups the references of one file, because which other files are searched is the workspace's visibility graph.
- CallHierarchy.OutgoingCalls: lists the functions of the same file, because the others come from that graph too.
- CallHierarchy.ResolveCallee: answers nothing for a name the file does not bind, where the source goes on to the definitions visible in other files.
- RuleDispatch.ReportedSeverityIsTheRules: assumes that no two registered rules share an id, as the one namespace of ids in the source intends.
- ExtendChain.LoadMergedConfig: takes the location of the base file as a function of the current path and the `extend` text, because joining and home expansion are file-system matters.
