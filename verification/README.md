# Repository tooling: verified models

The repository's scripts contain a number of real algorithms: a gate scheduler, a type
analyser, an update planner for translations, graph traversals, a codemod, a resumable
publication, a comment scanner and a worker pool. This project models them in Dafny and
proves what they are for. `dafny verify dfyconfig.toml` checks everything.

Each algorithm has a specification that does not mention how it works (reachability, least
relations, the characters of the source, the registry after one undisturbed run), a model of
the code with its branches and error cases, and lemmas for all inputs that connect the two.
Where the code changes variables or fields step by step, the model does too, as methods with
loops or as classes, and each such method is tied to the specification by its contract.

| modules | what they model |
|---|---|
| `GateGraph`, `GateOutcome`, `GateScheduler`, `GateProgress`, `GateReasons`, `GateRun` | validation, cycle search, the scheduler as a transition system, and the loop that refines it |
| `TypeWorld`, `ConfigLookup`, `ConfigLookupNodes`, `ConfigLookupSound`, `ConfigLookupCovers`, `ConfigLookupClear`, `ConfigLookupBlind`, `ConfigLookupEnds`, `ConfigLookupLeaf`, `ConfigLookupFinds`, `ConfigLookupChain`, `ConfigLookupLimits`, `KeyPath` | the three-valued presence check of schema keys |
| `PasteClosure`, `PasteChains`, `PasteRun`, `ComposeFold` | the closure of pasted declarations, and the folding of composed schemas |
| `Text`, `Lines`, `Weaving`, `FencedDoc`, `MechanicalUpdate`, `MechanicalLaws` | the computed code-fence update |
| `Sections`, `BriefPlan`, `BriefChoices`, `BriefUnits` | section spans and the choice of a briefing's scope |
| `EventFlow`, `EventCollector` | the recovery of event names from argument flow |
| `PackageGraph`, `TopoSort` | the package order |
| `CanonicalJson`, `CanonicalRun`, `CanonicalErrors` | canonical JSON of an object graph |
| `ExactText`, `ExactPieces`, `ExactRuns`, `ExactEdits`, `EditConditions`, `EditLaws`, `EditPairs`, `RescopePlan` | exact-string edits and their plan |
| `Publication`, `PublicationRuns` | resumable publication to a registry |
| `ReferenceFaces`, `FaceTraversal`, `FaceNames` | compiler-face isolation of project references |
| `CommentLines`, `ProseLines`, `CommentSource` | prose lines outside code blocks and comments |
| `WorkerPool` | the worker pool over a shared counter |
| `Wrappers`, `Graphs`, `Sorting` | shared definitions |

What comes from outside is a parameter. The executor of a gate and the linter are functions of
their target, `Promise.race` and the order of completions are nondeterministic choices, and the
registry is a map of versions and tags. The TypeScript and Markdown parsers are represented by
what they report, with stated well-formedness: type nodes, declarations and resolved names, call
sites, headings, fences, HTML nodes and code blocks with their positions. Locale collation is a
strict total order, and identifiers that the code only compares are opaque values.

Results that are negative, or that need a condition the code does not state:

- The mask test of the computed update can be fooled exactly when prose next to a fence spells
  the fence's own placeholder (`MechanicalLaws.SelfUpdateLawIff`).
- The schema check takes property signatures only. Its comment promises that what it cannot see
  through is unknown, never missing, but a member that comes from an index signature, a method, an
  accessor or a second declaration of the interface is reported missing, and `keyof` is looked
  through (`ConfigLookupBlind.BlindSpots`, `ConfigLookupBlind.NestedBlindSpot`,
  `ConfigLookupBlind.KeyOfIsSeenThrough`). Which declarations this can happen to, on any key path,
  can be read off them. Among transparent declarations missing is never wrong
  (`ConfigLookupClear.DeclNeverWrong`), and a declaration whose types have no union or
  intersection and name no declaration is never misreported if and only if it is transparent
  (`ConfigLookupBlind.NeverMisreportedIff`). Where nothing of the kind occurs both definite answers
  are right (`ConfigLookupSound.LookupDeclIsSound`).
- It shares one guard, keyed by declaration and path length, between branches, so it can answer
  unknown where it could know (`ConfigLookupLimits.UnionCanHideMember`,
  `ConfigLookupLimits.SameLengthIsUnknown`, `ConfigLookupLimits.DiamondIsUnknown`). Its comment says
  that recursive types bail out, but indexed access lengthens the path and can recurse for ever
  (`ConfigLookupLimits.GrowingNeverEnds`, on an alias the compiler rejects).
- Exact edits do not always apply once and reverse. Which pairs of strings do in every text is
  decided for replacements and insertions (`EditLaws.AlwaysLandsIff`); no deletion does
  (`EditLaws.NoDeletionAlwaysLands`); and for one text the condition is on its pieces
  (`ExactEdits.PendingEditLandsIff`, `EditLaws.DeletionLandsIff`). A target may overlap itself, as
  three in the table do, if the source starts with what overlaps.
- A briefing by units leaves out what lies between units, such as the delimiter row of a table
  (`BriefUnits.DelimiterGoesUnbriefed`); it is complete exactly when nothing there changed.
- `canonicalJson` silently drops a `__proto__` key (`CanonicalRun.ProtoIsLost`), and objects list
  keys that are array indices by number, whatever the sort did
  (`CanonicalRun.IndexKeysAreListedByNumber`).
- The prose scan takes comment offsets from the parser's HTML values; inside a block quote these
  lack the quote's prefixes and the ranges drift (`CommentSource.StrippedPrefixesDrift`).

## Model

| member | source | states |
|---|---|---|
| `GateGraph.CycleSearch.Enter` | scripts/run-gates.ts:689-690 | Putting a gate on the path keeps the search state valid, changes nothing else, and leaves strictly fewer ids to enter, so the recursion terminates on cyclic lists too. |
| `GateGraph.CycleSearch.Visit` | scripts/run-gates.ts:682-699 | Either returns a closed simple walk of real `needs` edges, or restores the path and the positions exactly and leaves the id complete; complete ids carry a rank below everything that needs them. |
| `GateGraph.CycleSearch.VisitNeeds` | scripts/run-gates.ts:691-694 | Without a cycle every need that names a gate is complete afterwards and the path is as it was. |
| `GateGraph.CycleSearch.Leave` | scripts/run-gates.ts:695-697 | Undoes the entry exactly and ranks the finished gate above all its needs. |
| `GateGraph.FindDependencyCycle` | scripts/run-gates.ts:676-706 | Returns a cycle if and only if the needs graph has one; the cycle is closed, has length at least 2 and no inner repetition; otherwise a rank falls along every edge. |
| `GateGraph.FindDuplicateId` | scripts/run-gates.ts:659-663 | No duplicate is reported exactly for unique ids; a reported one occurs twice. |
| `GateGraph.FindUnknownNeed` | scripts/run-gates.ts:664-670 | An unknown need is reported exactly when some need names no gate, and what is reported is real. |
| `GateGraph.ValidateGateGraph` | scripts/run-gates.ts:656-674 | No error if and only if the list is non-empty, ids are unique, needs are closed and there is no cycle; every error names a defect the list has. |
| `GateOutcome.SolutionIsExpected` | scripts/run-gates.ts:786-788 | The status equations have at most one solution: skipped exactly when a failing gate is reachable through one or more needs, otherwise the executor's outcome. |
| `GateOutcome.ExpectedSolves` | scripts/run-gates.ts:786-788 | That closed form does solve the equations. |
| `GateOutcome.SkippedIffObservedFailure` | scripts/run-gates.ts:741-766 | In any solution a gate is skipped exactly when a gate that really ran and failed is reachable from it. |
| `GateOutcome.PassedIffStandsOnPassed` | scripts/run-gates.ts:733-739 | A gate passes exactly when its executor passes and no failing gate is reachable from it. |
| `GateScheduler.StepKeepsInv` | scripts/run-gates.ts:730-777 | Start, settle and skip each keep: at most `maxActive` running, every launched gate had all needs passed, one execution and one observation per gate, results agree with states, every skip has a cause. |
| `GateScheduler.RunKeepsInv` | scripts/run-gates.ts:716-784 | Safety: every state of every run satisfies the invariant. |
| `GateScheduler.FailedDepsInOrder` | scripts/run-gates.ts:749-752 | The reason of a skip lists needs in their declared order. |
| `GateScheduler.FailedDepsOfOne` | scripts/run-gates.ts:749-752 | A need is listed exactly when it has failed or been skipped. |
| `GateProgress.PendingLeadsToBlocked` | scripts/run-gates.ts:743-748 | With nothing running and nothing ready, following pending needs downwards reaches a gate with a failed or skipped need. |
| `GateProgress.NeverStalls` | scripts/run-gates.ts:748 | "validated graph stalled" is unreachable: an unfinished state always has a step. |
| `GateProgress.RunIsShort` | scripts/run-gates.ts:730-777 | A run makes at most two steps per gate and can be extended until it is done. |
| `GateProgress.DoneSolves` | scripts/run-gates.ts:779-783 | A finished state has a result for every gate, and its statuses solve the equations. |
| `GateProgress.DrainedState` | scripts/run-gates.ts:741-742 | Whatever the schedule, when the last gate has settled exactly the doomed gates are pending. |
| `GateProgress.ScheduleIndependence` | scripts/run-gates.ts:716-784 | Every finished run of a configuration, whatever the order of completions, has the same results, reasons of skips included; the statuses are the closed form. |
| `GateReasons.FinalResultsIgnoreLimit` | scripts/run-gates.ts:716-730 | Those results are the same for every `maxActive`. |
| `GateReasons.AnyLimitAnySchedule` | scripts/run-gates.ts:716-784 | Any two finished runs of the same gates, under any two limits and in any order of completion, end with the same results. |
| `GateReasons.FinalResultsAreReasoned` | scripts/run-gates.ts:749-765 | The reason of a skip is never empty, names only needs that did not pass, and names every need that failed; no other result has a reason. |
| `GateRun.FindReady` | scripts/run-gates.ts:733 | The first gate of the aggregate order that is pending with all needs passed, or none exists. |
| `GateRun.FindBlocked` | scripts/run-gates.ts:742-748 | The first pending gate with a failed or skipped need; searching the filtered list is searching the whole one. |
| `GateRun.StartReady` | scripts/run-gates.ts:735-738 | One start is one step of the transition system. |
| `GateRun.SettleOne` | scripts/run-gates.ts:770-776 | Settling any running gate is one step of the transition system. |
| `GateRun.SkipPending` | scripts/run-gates.ts:741-768 | The skip phase is a sequence of steps that ends with nothing pending. |
| `GateRun.RunLoop` | scripts/run-gates.ts:726-777 | Every execution of the loop, for every resolution of the race, is a finished run of the transition system. |
| `GateRun.RunGates` | scripts/run-gates.ts:716-784 | Succeeds exactly for a validated list and a positive safe-integer limit; returns, in aggregate order, the schedule-independent results; "missing result" is unreachable. |
| `GateRun.ExitCode` | scripts/run-gates.ts:93-97 | 0 exactly when every gate not allowed to fail passes and nothing failing is reachable from it. |
| `KeyPath.ParseSegment` | scripts/gen-config-catalog.ts:235-242 | Peeling `[]` suffixes in a loop yields the member name and one hop per suffix. |
| `KeyPath.ParsePath` | scripts/gen-config-catalog.ts:232-245 | The steps of a path are those of its dot-separated segments. |
| `KeyPath.RenderUndoesParse` | scripts/gen-config-catalog.ts:232-245 | Rendering the parsed steps gives every string back, the empty one and stray brackets included. |
| `KeyPath.ParseUndoesRender` | scripts/gen-config-catalog.ts:232-245 | Parsing the rendering gives back every step list whose names contain no dot and no `[]` suffix. |
| `ConfigLookupNodes.UtilityWrapsItsArgument` | scripts/gen-config-catalog.ts:307-307 | `Partial<T>`, `Required<T>`, `Readonly<T>` and `NonNullable<T>` are answered like `T`, and have what `T` has. |
| `ConfigLookupNodes.ArrayNameTakesHop` | scripts/gen-config-catalog.ts:395-396 | `Array<T>` and `ReadonlyArray<T>` after a hop are answered like `T`, and have what `T` has. |
| `ConfigLookupNodes.ArrayNameHasNoMember` | scripts/gen-config-catalog.ts:395-396 | A member step into them is unknown. |
| `ConfigLookupNodes.ArrayTakesHop` | scripts/gen-config-catalog.ts:377-379 | The same for `T[]`. |
| `ConfigLookupNodes.ArrayHasNoMember` | scripts/gen-config-catalog.ts:377-379 | And its member steps. |
| `ConfigLookupNodes.ParenthesesChangeNothing` | scripts/gen-config-catalog.ts:366-380 | Parentheses and `readonly` change nothing. |
| `ConfigLookupNodes.KeyOfIsTakenForItsOperand` | scripts/gen-config-catalog.ts:380-380 | `keyof T` is answered like `T`, though neither presence nor absence follows. |
| `ConfigLookupNodes.IndexedAccessGoesThrough` | scripts/gen-config-catalog.ts:381-387 | `T['x']` is answered like `T` on the path with `x` in front; with any other index it is unknown. |
| `ConfigLookupNodes.OtherHeadIsAName` | scripts/gen-config-catalog.ts:388-401 | A plain reference with any other head, or without an argument, is its name; a qualified one is unknown. |
| `ConfigLookupNodes.OtherTypeIsObscure` | scripts/gen-config-catalog.ts:402-402 | Any other type node is unknown. |
| `ConfigLookupNodes.NameIsItsDeclaration` | scripts/gen-config-catalog.ts:399-400 | A name is answered like the declaration it resolves to in its file, and unknown without one. |
| `ConfigLookupNodes.MembersByName` | scripts/gen-config-catalog.ts:337-341 | The first property signature of the name decides: found at the end of the path, unknown without a type, otherwise as its type on the rest. |
| `ConfigLookupNodes.MembersWithout` | scripts/gen-config-catalog.ts:362-365 | Without one the member is missing; an array hop into members is unknown. |
| `ConfigLookupNodes.BranchesCombine` | scripts/gen-config-catalog.ts:367-376 | Of two branches of a union the answer is theirs if they agree, else unknown; of an intersection found if one finds, missing if both miss, else unknown. |
| `ConfigLookupNodes.DeclarationsByKind` | scripts/gen-config-catalog.ts:344-361 | An alias is answered like its type; an enum, and an array hop into an interface, are unknown. |
| `ConfigLookupNodes.OwnPropertyDecides` | scripts/gen-config-catalog.ts:346-347 | A property of the interface itself decides, whatever its bases. |
| `ConfigLookupNodes.BasesDecide` | scripts/gen-config-catalog.ts:348-359 | Otherwise one without bases misses it, and one base decides. |
| `ConfigLookupNodes.GuardStopsReentry` | scripts/gen-config-catalog.ts:322-326 | A declaration entered before with a path of this length is unknown. |
| `ConfigLookupSound.DisjointDecl` | scripts/gen-config-catalog.ts:309-316 | No key path is both present in a declaration and absent from it by the rules of the language, merged declarations, methods, accessors and index signatures included, for derivations of any length. |
| `ConfigLookupSound.LookupTyIsSound` | scripts/gen-config-catalog.ts:366-402 | On any type node of visible declarations (properties only, nothing merged, no `keyof`), found implies present and missing implies absent, whatever the shared guard already holds. |
| `ConfigLookupSound.LookupDeclIsSound` | scripts/gen-config-catalog.ts:317-361 | The same for declarations: soundness on any graph of visible declarations, despite the guard shared by all branches and keyed by path length only. |
| `ConfigLookupSound.LookupBasesIsSound` | scripts/gen-config-catalog.ts:348-359 | Combining the bases keeps soundness in both directions. |
| `ConfigLookupBlind.BlindSpots` | scripts/gen-config-catalog.ts:337-343 | Why only visible ones: a member that an index signature, a method or a second declaration of the interface provides is reported missing. |
| `ConfigLookupBlind.NestedBlindSpot` | scripts/gen-config-catalog.ts:362-365 | The same on a nested path, behind an own property, whatever the bases. |
| `ConfigLookupBlind.KeyOfIsSeenThrough` | scripts/gen-config-catalog.ts:380-380 | `keyof T` is answered as if it were `T`: found though nothing is there, and missing though that is not known. |
| `ConfigLookupCovers.CoversSound` | scripts/gen-config-catalog.ts:335-402 | Of two types without unions, intersections and names of declarations, one for the walk and one for the meaning: if the first covers the second, what is reported missing is not there, on any path and with any guard. |
| `ConfigLookupCovers.CoversComplete` | scripts/gen-config-catalog.ts:335-402 | If it does not, there is a path that is there and is reported missing. |
| `ConfigLookupClear.DeclNeverWrong` | scripts/gen-config-catalog.ts:315-361 | Among transparent declarations nothing that is there is reported missing, on any path, unions, intersections, references and bases included: every name is a property with a transparent type, no signature stands for all names, later parts add nothing, or else a base keeps the walk from saying missing. |
| `ConfigLookupClear.TyNeverWrong` | scripts/gen-config-catalog.ts:366-402 | The same for type nodes. |
| `ConfigLookupClear.BasesNeverWrong` | scripts/gen-config-catalog.ts:348-359 | Bases that all answer missing are all in reach, none is listed twice, and none has the member. |
| `ConfigLookupBlind.NeverMisreportedIff` | scripts/gen-config-catalog.ts:315-361 | A declaration whose types have no union or intersection and name no declaration never has anything that is there reported missing, on any path and whatever transparent declarations surround it, if and only if it is transparent. |
| `ConfigLookupBlind.TransparentStaysTrue` | scripts/gen-config-catalog.ts:315-361 | One half of that, for every declaration. |
| `ConfigLookupBlind.HiddenIsMisreported` | scripts/gen-config-catalog.ts:344-360 | The other half: a world and a member for every interface that hides a name or a base in a later part, a member that is no property, or a signature for all names. |
| `ConfigLookupBlind.UncoveredIsMisreported` | scripts/gen-config-catalog.ts:337-343 | And a path for every interface with a property whose type does not cover what its name means. |
| `ConfigLookupFinds.FoundIffPresent` | scripts/gen-config-catalog.ts:317-403 | Where unions and literal indexed accesses name no declaration, the check answers found if and only if the member is there: the shared guard hides nothing, however the declarations branch and recurse. |
| `ConfigLookupFinds.MissesDecl` | scripts/gen-config-catalog.ts:322-326 | A lookup that fails leaves behind no entered declaration that has the member, unless one entered before has it. |
| `ConfigLookupChain.ChainIsExact` | scripts/gen-config-catalog.ts:317-403 | On ranked declarations that follow at most one name at a time, unions, intersections and literal indexed accesses included, the check ends, answers found if and only if the member is there, and missing if and only if it is not. |
| `ConfigLookupChain.DeclSettles` | scripts/gen-config-catalog.ts:322-326 | What it leaves undecided on the way has a shorter derivation at a declaration it is still inside of. |
| `ConfigLookupLeaf.LeafIsExact` | scripts/gen-config-catalog.ts:366-402 | On a type that names no declaration it is exact, whatever the guard holds. |
| `ConfigLookupLimits.UnionCanHideMember` | scripts/gen-config-catalog.ts:370-376 | Why unions that name declarations are excluded: for `A | A` the second branch finds `A` entered, and a present member is reported unknown. |
| `ConfigLookupLimits.SameLengthIsUnknown` | scripts/gen-config-catalog.ts:323-325 | Why two names at a time are: two paths of one length into one declaration are taken for the same, and a present member is reported unknown without any union. |
| `ConfigLookupLimits.SameLengthIsPresent` | scripts/gen-config-catalog.ts:323-325 | In that example the member is there. |
| `ConfigLookupLimits.SameLengthIsRanked` | scripts/gen-config-catalog.ts:381-387 | The declarations of that example are ranked, so the lookup ends. |
| `ConfigLookupLimits.SameLengthIsVisible` | scripts/gen-config-catalog.ts:337-343 | And visible: the shared guard alone is at fault. |
| `ConfigLookupLimits.DiamondIsUnknown` | scripts/gen-config-catalog.ts:348-359 | And two bases that extend the same empty interface make an absent member unknown. |
| `ConfigLookupLimits.DiamondIsAbsent` | scripts/gen-config-catalog.ts:348-359 | In that example the member is not there. |
| `ConfigLookupEnds.RankedLookupEnds` | scripts/gen-config-catalog.ts:322-326 | If declarations can be ranked so that targets of literal indexed accesses name lower ones and nothing names a higher one, one hop per declaration and path length is enough, for paths at most the first rank longer. |
| `ConfigLookupEnds.MoreFuelDecl` | scripts/gen-config-catalog.ts:317-403 | The hop bound of the model decides only whether there is an answer, never which. |
| `ConfigLookupLimits.GrowingNeverEnds` | scripts/gen-config-catalog.ts:381-387 | Otherwise the lookup need not end: `type A = A['x']` exhausts every bound. |
| `PasteRun.CollectPastes` | scripts/gen-config-catalog.ts:663-715 | The worklist ends; it reports no violation if and only if every needed name has exactly one meaning; then the first paste is the config type, the pastes are exactly the declarations it reaches, one per name, and every non-global mention resolves from its own file to what is recorded. |
| `PasteChains.MeansDeclarationIff` | scripts/gen-config-catalog.ts:146-171 | A name in a file means a declaration if and only if that is the first on the chain of package-local imports under that name from the file. |
| `PasteChains.MeansImportIff` | scripts/gen-config-catalog.ts:163-170 | It means an import from a package if and only if the chain ends there, with the exported name and the specifier of that import. |
| `PasteChains.MeansNothingIff` | scripts/gen-config-catalog.ts:155-166 | It means nothing if and only if the chain ends at a file without an import of the name, or with one that renames it or lacks the extension. |
| `PasteChains.RunsInCircleIff` | scripts/gen-config-catalog.ts:167-168 | The one remaining case is a chain that turns back on itself or leaves the package. |
| `PasteRun.ReportedIsTrue` | scripts/gen-config-catalog.ts:673-705 | A processed item is reported at most once, with a kind of violation that is true of it, and nothing is recorded for it. |
| `PasteRun.UnreportedIsRecorded` | scripts/gen-config-catalog.ts:690-714 | An item that is not reported is recorded with what it means. |
| `PasteRun.NoNewViolation` | scripts/gen-config-catalog.ts:673-705 | Where every needed name has one meaning no item is ever in conflict with what is recorded. |
| `PasteRun.CompleteIsUnambiguous` | scripts/gen-config-catalog.ts:673-705 | A violation-free run rules out any second meaning of a needed name. |
| `PasteClosure.ProcessKeepsClosed` | scripts/gen-config-catalog.ts:671-714 | Every mention of a pasted declaration is recorded or still queued. |
| `PasteClosure.ProcessKeepsNames` | scripts/gen-config-catalog.ts:695-707 | The pastes are exactly the recorded declarations, one for each name, and no name is both pasted and imported. |
| `PasteClosure.ProcessKeepsJustified` | scripts/gen-config-catalog.ts:671-714 | Whatever is pasted, imported or queued is there because the config type reaches it. |
| `PasteClosure.FinishedIsComplete` | scripts/gen-config-catalog.ts:716-717 | An empty queue without violations is a complete closure. |
| `ComposeFold.FoldComposed` | scripts/gen-config-catalog.ts:736-749 | One call adds, once each, packages composed into its argument, all of whose known compositions are seen when it returns; the keys are theirs in visiting order. |
| `ComposeFold.FoldVisitsComposed` | scripts/gen-config-catalog.ts:736-750 | From an empty guard exactly the packages reachable through compositions are visited, each once, on cyclic graphs too. |
| `ComposeFold.AllKeys` | scripts/gen-config-catalog.ts:735-750 | A schema's key paths are those of every package composed into it, each counted once; the reported unknown names are exactly the uncollected ones reached. |
| `Lines.LinesOfUnlines` | scripts/translation-brief.ts:35-43 | Writing lines and reading them back loses exactly one trailing carriage return per line and nothing else. |
| `Lines.UnlinesInjective` | scripts/translation-brief.ts:41-43 | Different non-empty line lists are written differently. |
| `Weaving.MaskDeterminesGapsIff` | scripts/translation-brief.ts:177-179 | Masking determines the prose between the masked blocks if and only if no gap contains one of the placeholders next to it. |
| `Weaving.SecondCut` | scripts/translation-brief.ts:177-179 | A bordering placeholder in a gap gives a second document with the same mask. |
| `FencedDoc.CutWeavesBack` | scripts/translation-brief.ts:162-175 | Cutting a document at its fences loses no line. |
| `MechanicalUpdate.SpliceStep` | scripts/translation-brief.ts:169-173 | One splice, last span first, leaves all earlier line numbers valid and moves the finished part one span forward. |
| `MechanicalUpdate.ReplaceSpanTexts` | scripts/translation-brief.ts:167-175 | Descending splices in the line array equal the simultaneous replacement; the unknown-span error occurs exactly for an index that is no span. |
| `MechanicalUpdate.MaskTextIs` | scripts/translation-brief.ts:177-179 | The mask keeps the prose and has one placeholder line for each fence. |
| `MechanicalUpdate.PlaceholderIs` | scripts/translation-brief.ts:178-178 | The placeholder is `MNH_TRANSLATION_CODE_` and the number of the fence in decimal. |
| `MechanicalLaws.UpdateExistsIff` | scripts/translation-brief.ts:193-203 | There is a computed update if and only if there are fences, the prose is unchanged, the counterpart has the confirmed fences and some fence changed. |
| `MechanicalLaws.PatchLaw` | scripts/translation-brief.ts:193-203 | When there is an update, every line of the counterpart outside its fences survives in order, and fence i is the current fence i (a changed one read back, so less one trailing carriage return per line). |
| `MechanicalLaws.CleanPatchLaw` | scripts/translation-brief.ts:193-203 | Without stray carriage returns the result is exactly the counterpart's prose around the current fences. |
| `MechanicalLaws.MaskTestIsSound` | scripts/translation-brief.ts:198 | A mask test that succeeds on a placeholder-free document proves the prose untouched. |
| `MechanicalLaws.SelfUpdateIsCurrent` | scripts/translation-brief.ts:193-203 | With the confirmed text as counterpart the result has exactly the current lines. |
| `MechanicalLaws.SomeCurrentFoolsTheTest` | scripts/translation-brief.ts:177-179 | Otherwise: for every document that is not placeholder-free some current text, each of its fences a block between two lines of backticks, passes the test and is not reproduced. |
| `MechanicalLaws.SelfUpdateLawIff` | scripts/translation-brief.ts:193-203 | The exact condition: self-updates always reproduce the current text if and only if no prose gap spells a placeholder next to it, among all current texts and among those with backtick fences alike. |
| `Sections.SectionSpans` | scripts/translation-brief.ts:99-135 | The array-filling loop builds the sections the other results speak about. |
| `Sections.SectionsPartition` | scripts/translation-brief.ts:114-133 | Sections are numbered in order, cover the document's lines contiguously without overlap, and carry exactly their own lines. |
| `Sections.SectionOfHeading` | scripts/translation-brief.ts:117-133 | Every heading starts its own section, of its depth and under its title; text before the first heading is one preamble span. |
| `Sections.CoverText` | scripts/translation-brief.ts:41-43 | The sections' texts one after another are the whole document with normalised newlines. |
| `Sections.ChangedIsExact` | scripts/translation-brief.ts:158-160 | The changed indices are exactly the positions whose text differs, ascending. |
| `Sections.UnchangedIffSameLines` | scripts/translation-brief.ts:145-160 | Of aligned documents, no section changed if and only if they have the same lines, sectioned at the same places. |
| `Sections.SameLinesIffNewlineOnly` | scripts/translation-brief.ts:35-39 | Two texts have the same lines if and only if they differ in CRLF for LF and a final newline only. |
| `BriefPlan.ExtraIsExact` | scripts/translation-brief.ts:316-337 | The extra spans are exactly the unchanged ones that some row's first occurrence moved into or out of, ascending and without duplicates. |
| `BriefPlan.FirstOccurrenceContext` | scripts/translation-brief.ts:316-337 | The loop over the rows computes them. |
| `BriefPlan.BundlesAtIs` | scripts/gen-translation-brief.ts:133-159 | Bundles are ascending, one for each changed span and each span a first occurrence moved through and for no other, each with the texts of its own index in all three documents. |
| `BriefPlan.PlanNeverUnmapped` | scripts/gen-translation-brief.ts:146-148 | "unmapped despite alignment" is unreachable, also for first-occurrence spans. |
| `BriefPlan.MappedPlanBriefs` | scripts/gen-translation-brief.ts:188-208 | A mapped plan comes from aligned, really changed spans and briefs exactly what it must. |
| `BriefChoices.BothSidesIff` | scripts/gen-translation-brief.ts:176-181 | The plan is the whole document because both sides changed exactly when both did. |
| `BriefChoices.MechanicalIff` | scripts/gen-translation-brief.ts:184-187 | It is a computed text exactly when one side changed and that is the computed update. |
| `BriefChoices.MappingIff` | scripts/gen-translation-brief.ts:186-212 | Otherwise it maps units exactly when they can be briefed, sections when only they can, and gives up exactly when neither can: all three texts have the same kinds in the same order, at least one, and some text changed. |
| `BriefChoices.SectionsAlignIff` | scripts/translation-brief.ts:99-140 | Sections of two texts align exactly when their headings have the same depths one by one and both have a preamble or neither. |
| `BriefChoices.UnitsAre` | scripts/translation-brief.ts:86-93 | A unit is its path, its node type and its lines. |
| `BriefChoices.ExtrasByDirection` | scripts/gen-translation-brief.ts:197-201 | First occurrences add spans towards Chinese only, for the rows found in the changed texts. |
| `BriefChoices.ChangedTextIsJoined` | scripts/gen-translation-brief.ts:195-195 | Terminology is looked up in the confirmed and the current texts of the changed spans, joined line by line. |
| `BriefChoices.LineOfOffset` | scripts/translation-brief.ts:284-286 | The line of an offset is one more than the newlines before it. |
| `BriefChoices.SpanOfLine` | scripts/translation-brief.ts:288-292 | The span of an offset is the first that covers its line. |
| `BriefChoices.NoSpanOfLine` | scripts/translation-brief.ts:288-292 | And there is none if none does. |
| `BriefPlan.AlignedSectionsFallBackOnlyOnNewlines` | scripts/gen-translation-brief.ts:184-212 | With one drifted side and aligned sections the plan falls back to the whole document only if the texts differ in newlines alone. |
| `BriefPlan.SectionsBriefingIsComplete` | scripts/gen-translation-brief.ts:188-208 | Replacing just the briefed sections of the confirmed text by their current text gives the whole current text: no change is left out. |
| `BriefUnits.UnitsBriefingIsCompleteIff` | scripts/gen-translation-brief.ts:188-208 | A units briefing is complete exactly when nothing between the units changed: then, and only then, replacing the briefed units of the confirmed text gives the current text with every unit in its place. |
| `BriefUnits.UnitsBriefingIsCompleteText` | scripts/gen-translation-brief.ts:188-208 | The text alone decides it where no line between units reads like the start of the next unit. |
| `BriefUnits.DelimiterGoesUnbriefed` | scripts/translation-brief.ts:55-94 | A changed delimiter row of a table, beside a changed paragraph, reaches no bundle. |
| `EventFlow.FlowIsReached` | scripts/gen-doc-graphs.ts:999-1045 | Every reported value sits in an array slot at the end of a walk through branches, const initialisers and parameters to call arguments. |
| `EventFlow.ReachedIsFlow` | scripts/gen-doc-graphs.ts:999-1045 | The path-local guard cuts off no value: any walk, however often it repeats, can be replaced by one the traversal takes. |
| `EventFlow.FlowIsReachability` | scripts/gen-doc-graphs.ts:999-1045 | The result is exactly the union over reachable array slots, on any finite, possibly cyclic flow graph. |
| `EventFlow.LeafOfArray` | scripts/gen-doc-graphs.ts:1004-1010 | Of an argument array only the first two elements count, and of these the first with a finite set of strings. |
| `EventFlow.OtherShapesHaveNoValue` | scripts/gen-doc-graphs.ts:1004-1018 | No other expression has values of its own. |
| `EventFlow.SourcesAre` | scripts/gen-doc-graphs.ts:1012-1045 | A value comes from either branch of a condition, the initialiser of a constant, or the argument in a parameter's place in some call of its function, and from nowhere else. |
| `EventCollector.BuildCallSiteIndex` | scripts/gen-doc-graphs.ts:843-858 | The index lists, for every function, its calls in file order. |
| `EventCollector.Collector.ProvenLocalCallee` | scripts/gen-doc-graphs.ts:891-924 | The cached proof holds exactly for the helpers nothing lets out of their file. |
| `EventCollector.Collector.CallSitesFor` | scripts/gen-doc-graphs.ts:868-880 | Given that scoping fact, whatever the three caches hold, the answer is all resolved calls of the package: the one-file fast path changes nothing. |
| `EventCollector.FastPathIsExactIff` | scripts/gen-doc-graphs.ts:868-880 | The scoping fact behind the one-file fast path is exactly what it needs: it holds if and only if the path loses no call of any proven helper. |
| `EventCollector.Collector.EventNamesFromArgumentList` | scripts/gen-doc-graphs.ts:999-1031 | The recursion ends and returns the flow, leaving the caches valid. |
| `EventCollector.Collector.EventNamesFromParameter` | scripts/gen-doc-graphs.ts:1034-1045 | A parameter is followed to its position in every call of its function. |
| `PackageGraph.SortSorts` | scripts/package-graph.ts:66-66 | Sorting a layer keeps its packages and orders them strictly by group rank, group and name. |
| `PackageGraph.MapValuesMembers` | scripts/package-graph.ts:60-60 | The map keeps, for every name, the last package of that name. |
| `TopoSort.TopoSort` | scripts/package-graph.ts:59-75 | Returns all packages ordered by dependency depth, then group rank, group and name; fails if and only if some non-empty set of packages each has a dependency inside the set or naming no package, and reports such a set. |
| `TopoSort.RoundKeepsInvariant` | scripts/package-graph.ts:63-73 | Each round places exactly the packages of the next depth. |
| `TopoSort.DependenciesComeFirst` | scripts/package-graph.ts:59-75 | Every dependency is strictly earlier than the package that has it. |
| `TopoSort.DepthIsUnique` | scripts/package-graph.ts:65-65 | The depth of a package does not depend on the input order. |
| `TopoSort.TopoOrderIsUnique` | scripts/package-graph.ts:59-83 | There is one such order for the same packages, in whatever order they come. |
| `TopoSort.ComesFirst` | scripts/package-graph.ts:63-83 | Of two packages the one of smaller depth comes first; of one depth the one whose group is listed earlier, a listed group before an unlisted one, of unlisted groups the smaller, and in one group the smaller name. |
| `TopoSort.OneComesFirst` | scripts/package-graph.ts:77-83 | That orders any two packages. |
| `TopoSort.SameResultIff` | scripts/package-graph.ts:59-75 | For two lists of manifests the result is the same if and only if the same manifests are the last of their names. |
| `TopoSort.ReadOrderIsInvisible` | scripts/package-graph.ts:59-75 | So manifests with distinct names can be read in any order. |
| `TopoSort.RepeatedNameShows` | scripts/package-graph.ts:60-60 | With a repeated name the order shows: the later manifest counts. |
| `CanonicalJson.CanonSucceedsIff` | scripts/gen-pi-ai-catalog.ts:63-92 | Under any set of active objects the recursion succeeds if and only if every walk out of the value stays JSON, avoids the active objects and never repeats an object. |
| `CanonicalJson.CleanIffAcyclic` | scripts/gen-pi-ai-catalog.ts:72-73 | From an empty active set that is: everything reachable is JSON-valued and on no cycle; shared objects are fine. |
| `CanonicalJson.CanonicalIffAcyclicJson` | scripts/gen-pi-ai-catalog.ts:63-92 | The exact success condition of the generator's call; it terminates on every finite graph. |
| `CanonicalRun.Canonicalizer.CanonicalJson` | scripts/gen-pi-ai-catalog.ts:63-92 | Whether it returns or throws, the mutable `active` set is left as it was found, and the outcome, error path included, is that of the recursion. |
| `CanonicalRun.Canonicalizer.CanonicalFields` | scripts/gen-pi-ai-catalog.ts:84-88 | The loop over the sorted keys fills the output and stops at the first throw. |
| `CanonicalRun.CanonDenotes` | scripts/gen-pi-ai-catalog.ts:75-88 | The result denotes the value: same atoms, same entries, a member for every key but `__proto__`, array-index keys listed first by number and the others in code-unit order. |
| `CanonicalRun.EnumeratedIsSortedIff` | scripts/gen-pi-ai-catalog.ts:85-87 | Sorting the keys decides how they are listed if and only if the array indices among the sorted keys stand in front, in numerical order. |
| `CanonicalRun.ListingIsUnique` | scripts/gen-pi-ai-catalog.ts:85-87 | Members with different names have one listing: index keys first, by number, then the others in code-unit order. |
| `CanonicalRun.IndexKeysAreListedByNumber` | scripts/gen-pi-ai-catalog.ts:85-87 | The keys "10" and "9" are assigned in this order and listed in the other. |
| `CanonicalRun.ProtoIsLost` | scripts/gen-pi-ai-catalog.ts:84-86 | A record whose only key is `__proto__` has the empty object as its form. |
| `CanonicalRun.CanonHidesOrder` | scripts/gen-pi-ai-catalog.ts:85-87 | The whole outcome, errors and their paths included, is the same for every key insertion order. |
| `CanonicalErrors.ErrorIsTrue` | scripts/gen-pi-ai-catalog.ts:63-92 | The path of an error leads to a value with the defect its message names; a cycle is an object met on the way there. |
| `ExactText.SplitFindsCleanCuts` | scripts/rescope-vendor.ts:581-582 | Splitting a joined text finds the cuts again if each is the first hit in its piece. |
| `ExactText.SplitCutsAreClean` | scripts/rescope-vendor.ts:581-582 | Splitting only ever makes such cuts. |
| `ExactText.CutsSurviveIff` | scripts/rescope-vendor.ts:638-638 | Joining with another string keeps the cuts if and only if they are such cuts for it. |
| `ExactEdits.StatesMean` | scripts/rescope-vendor.ts:580-593 | Pending and applied, for replacements, insertions and deletions, in terms of how many hits the text has of either string. |
| `ExactEdits.RestoredIff` | scripts/rescope-vendor.ts:580-593 | For every text, undoing an applied edit gives the text back if and only if the pieces around the hits of the source are clean cuts for the target. |
| `ExactEdits.PendingEditLandsIff` | scripts/rescope-vendor.ts:580-593 | For every text, a pending edit is applied afterwards and undone by its reverse if and only if that holds and the source does not come back (unless the target contains it). |
| `ExactEdits.LandedIsReversible` | scripts/rescope-vendor.ts:615-618 | What landed is pending for the reverse edit, and the text before reads as applied for it. |
| `ExactPieces.JoinContainsIff` | scripts/rescope-vendor.ts:588-592 | The source comes back exactly when some piece, with the target put on the sides where it has a neighbour, contains it. |
| `EditConditions.AlwaysRestoredIff` | scripts/rescope-vendor.ts:592-592 | Undoing gives back every text without the target if and only if, for every overlap of the target with itself, the text that would make it be met too early does not split there or has the target already. |
| `EditConditions.SharedBordersAreRecognised` | scripts/rescope-vendor.ts:238-244 | That is so when the source starts with whatever the target overlaps itself in, and in particular when it does not overlap itself. |
| `EditConditions.NeverReturnsIff` | scripts/rescope-vendor.ts:591-592 | In no text without the target does the source come back if and only if, for every way it straddles the target on either side, the smallest text with that filler does not split there or has the target already. |
| `EditLaws.AlwaysLandsIff` | scripts/rescope-vendor.ts:580-593 | A replacement or insertion applies once and reverses in every text if and only if its target is recognised and, for a replacement, its source never comes back. |
| `EditLaws.PlainEditAlwaysLands` | scripts/rescope-vendor.ts:580-593 | A condition to read off the two strings: no string of the pair contains or overlaps the other, or the target contains the source, and the target overlaps itself only in what the source starts with. |
| `EditLaws.NoDeletionAlwaysLands` | scripts/rescope-vendor.ts:587-590 | Every deletion fails in some text: where its source is followed by its target. |
| `EditLaws.DeletionLandsIff` | scripts/rescope-vendor.ts:587-590 | For every text, a deletion whose target does not overlap itself lands, and is undone by its reverse, if and only if no piece has the target and no run of neighbouring pieces completes the source around it. |
| `EditLaws.LandedIff` | scripts/rescope-vendor.ts:581-582 | The target is counted once for each hit of the source exactly when no piece has it already. |
| `ExactRuns.RunIff` | scripts/rescope-vendor.ts:587-590 | The source, which contains the target, comes back exactly where a run of pieces agrees with the pieces of the source. |
| `ExactEdits.BorderedTargetMiscounts` | scripts/rescope-vendor.ts:592-592 | A bordered target can land more often than it was put: the edit then reads as invalid. |
| `ExactEdits.DeletionCanPendAgain` | scripts/rescope-vendor.ts:587-590 | A deletion can leave a new hit behind and read as pending again. |
| `RescopePlan.Classify` | scripts/rescope-vendor.ts:611-627 | Every edit is judged against the unwritten tree; the failures are exactly the edits whose state is invalid and, when checking, the pending ones; the plan is the pending edits in order. |
| `RescopePlan.Tree.RunExactEdits` | scripts/rescope-vendor.ts:605-640 | There is no failure exactly when no edit, in the running direction, is invalid in the old tree and, when checking, all are applied; the tree changes only in an apply run without failures, which writes exactly the pending edits. |
| `RescopePlan.Tree.WritePlanned` | scripts/rescope-vendor.ts:634-640 | Re-reading each file, the planned edits are composed in order. |
| `EditPairs.SplitIsKept` | scripts/rescope-vendor.ts:634-640 | An edit that cannot be confused with another string leaves the text cut by that string at the same places, each piece edited on its own. |
| `EditPairs.StateIsKept` | scripts/rescope-vendor.ts:634-640 | So an edit none of whose strings contains or overlaps a string of the other keeps the other's state. |
| `EditPairs.LandsIsKept` | scripts/rescope-vendor.ts:634-640 | And if the other could land before, it can still. |
| `EditPairs.EditsCommute` | scripts/rescope-vendor.ts:634-640 | The two can be made in either order. |
| `RescopePlan.ApplyRunLands` | scripts/rescope-vendor.ts:611-640 | With any number of edits in a file, pairwise independent and each applied or able to land, every edit reads as applied after an apply run, and a second run plans nothing. |
| `RescopePlan.ReverseRunRestores` | scripts/rescope-vendor.ts:615-640 | From a tree where all of them are pending and can land, the reverse run finds every edit pending again and restores the whole tree. |
| `Publication.RunWritesOnlyBundle` | scripts/publish-npm-baseline.ts:625-654 | In every run, whatever prefix is executed and whether it throws, no existing integrity changes and only bundle versions and their two tags are written. |
| `Publication.TwoActions` | scripts/publish-npm-baseline.ts:632-650 | One package's turn fails exactly on a different integrity, without writing; otherwise version and tag are there. |
| `Publication.CompleteRunSucceeds` | scripts/publish-npm-baseline.ts:625-654 | Without conflict and with the entry package available a run succeeds and what it leaves passes verification. |
| `Publication.VerifiedRunWritesNothing` | scripts/publish-npm-baseline.ts:755-764 | On a verified registry a further run issues no write. |
| `Publication.WritesAreChanges` | scripts/publish-npm-baseline.ts:755-764 | Exactly the actions that change the registry count as writes. |
| `Publication.VerifiedMeans` | scripts/publish-npm-baseline.ts:37-38 | A verified registry has every package of the bundle at its integrity and tag, and the tag `latest` of `@aflydream/mnh` at this version. |
| `PublicationRuns.VerifiedIsUnique` | scripts/publish-npm-baseline.ts:662-698 | What may be written and what verification demands leave one final registry. |
| `PublicationRuns.NoNewObstacles` | scripts/publish-npm-baseline.ts:632-645 | Nothing a run leaves behind hinders the next one. |
| `PublicationRuns.ResumedRunReachesTheSameRegistry` | scripts/publish-npm-baseline.ts:625-698 | After any number of runs interrupted anywhere, a complete run reaches the registry of one undisturbed run, which passes verification; a further run writes nothing. |
| `PublicationRuns.RunSucceedsIff` | scripts/publish-npm-baseline.ts:625-654 | A run succeeds if and only if no bundle version is there with other contents and the entry package is available. |
| `PublicationRuns.RegistryPublication.PublishPackage` | scripts/publish-npm-baseline.ts:633-649 | Publishes a missing version, accepts an equal one, refuses a different one. |
| `PublicationRuns.RegistryPublication.SetDistTag` | scripts/publish-npm-baseline.ts:755-764 | Moves a tag only when it points elsewhere, and only to a version that exists. |
| `PublicationRuns.RegistryPublication.Verify` | scripts/publish-npm-baseline.ts:656-698 | Reports nothing if and only if every package is there as packed with its tag, and the entry package's `latest`. |
| `PublicationRuns.RegistryPublication.Publish` | scripts/publish-npm-baseline.ts:625-654 | The loop performs exactly the actions; it fails exactly under the condition above, its own closing verification never fails, and it writes only what it may. |
| `ReferenceFaces.SplitRootsAre` | scripts/project-reference-faces.ts:65-71 | The split roots are the packages with both face configs, longest path first. |
| `FaceNames.LengthAsWritten` | scripts/project-reference-faces.ts:70-70 | Roots are ordered by the length of the path as it is written. |
| `ReferenceFaces.JudgedByDeepest` | scripts/project-reference-faces.ts:116-121 | The root found first is around the target and inside every other split root around it. |
| `ReferenceFaces.FaceIsFirstVerdict` | scripts/project-reference-faces.ts:88-103 | A config's face is the first decision up its `extends` chain; a chain that never decides, cyclic ones included, gives none. |
| `ReferenceFaces.AcceptedIff` | scripts/project-reference-faces.ts:41-57 | A reference is accepted if and only if it enters no split package, or exactly the leaf of its own face in the deepest one. |
| `FaceTraversal.VisitReferences` | scripts/project-reference-faces.ts:40-59 | One pass over a config's references records its violations and queues the accepted targets. |
| `FaceTraversal.CollectViolations` | scripts/project-reference-faces.ts:30-63 | Sorted, each violation as often as the references of its config commit it, for exactly the configs reachable from the aggregates through accepted references; it stops exactly when a reached config cannot be read. |
| `FaceTraversal.AllReachedAreVisited` | scripts/project-reference-faces.ts:35-37 | An empty worklist means that exactly the reachable configs were visited, each once. |
| `FaceTraversal.ReportedIff` | scripts/project-reference-faces.ts:43-57 | A violation is reported if and only if a reached config has a reference into the wrong face. |
| `FaceTraversal.ReportIsUnique` | scripts/project-reference-faces.ts:62-62 | The report does not depend on the order of the worklist. |
| `FaceNames.FaceIff` | scripts/project-reference-faces.ts:88-105 | A config has the Host face exactly when the first named one up its `extends` chain, itself included, is a `tsconfig.host.json` or the root's `tsconfig.base.json`, and the Client face likewise for the two client names. |
| `FaceNames.BrokenIff` | scripts/project-reference-faces.ts:73-80 | The run stops at a config exactly when one up its chain is unreadable before any is named. |
| `FaceNames.ParentIs` | scripts/project-reference-faces.ts:102-111 | One step up the chain is the config that `extends` names, if it exists. |
| `FaceNames.ReportedByName` | scripts/project-reference-faces.ts:33-63 | A violation is reported exactly for a reference of a reached config that enters the innermost two-faced package around its target from a config without a face, or not by the leaf named for the config's face. |
| `FaceNames.AggregatesByName` | scripts/project-reference-faces.ts:33-33 | The traversal starts from the root's two aggregate configs. |
| `CommentLines.RangesAreComments` | scripts/markdown.ts:112-120 | Every range found opens a comment and ends behind its first close or at the end. |
| `CommentLines.OpeningsAreInside` | scripts/markdown.ts:112-120 | Every comment opening lies inside a range found. |
| `CommentLines.FindComments` | scripts/markdown.ts:109-121 | The cursor loop collects them. |
| `CommentLines.Delimiters` | scripts/markdown.ts:114-117 | A comment opens with `<!--` and closes with `-->`. |
| `CommentLines.SpacesAre` | scripts/markdown.ts:152-152 | Whitespace is what JavaScript trims, by code point. |
| `CommentLines.ColumnsAreOffsets` | scripts/markdown.ts:125-136 | A column is in a range of its line if and only if its source offset is in a comment, for overlapping and multi-line ranges too. |
| `CommentLines.LineRangesIff` | scripts/markdown.ts:128-135 | A line has ranges if and only if it meets a comment; an empty line meets the comment it stands in. |
| `CommentLines.HasRenderedTextOutsideComments` | scripts/markdown.ts:143-153 | True if and only if there are no ranges or some character outside all of them is no whitespace: the sorted sweep is right for overlapping ranges. |
| `ProseLines.LineInSource` | scripts/markdown.ts:124-137 | The running offset is where the line stands in the source. |
| `ProseLines.HtmlCommentRanges` | scripts/markdown.ts:108-140 | The map holds exactly the ranges of each line that has any. |
| `ProseLines.HiddenIff` | scripts/markdown.ts:142-153 | The column arithmetic says the same as the characters of the source. |
| `ProseLines.FencedLines` | scripts/markdown.ts:163-167 | The fenced lines are those of some code block. |
| `ProseLines.MarkdownProseLines` | scripts/markdown.ts:160-176 | Keeps, in order and numbered, exactly the prose lines. |
| `ProseLines.KeptIffProse` | scripts/markdown.ts:169-175 | A line is dropped if and only if it is in a code block, or meets a comment and has only whitespace outside comments. |
| `CommentSource.VerbatimRangesAreComments` | scripts/markdown.ts:111-120 | Where the parser's HTML values are verbatim slices of the source, every range is a comment of the source itself: it opens one, and ends behind the first close after the opening, or at the end of the node if there is none. |
| `CommentSource.SourceOpeningsAreInside` | scripts/markdown.ts:111-120 | And every opening the source has in them is inside a range. |
| `CommentSource.StrippedPrefixesDrift` | scripts/markdown.ts:118-118 | For a comment in a block quote they are not: its last line is kept as prose. |
| `WorkerPool.StepKeepsInv` | scripts/publint-all.ts:131-137 | Each await-to-await step keeps: targets are handed out once and in order, no two workers share one, nothing handed out is lost, handed out = stored + in flight. |
| `WorkerPool.InFlightBound` | scripts/publint-all.ts:130-138 | At every moment of every interleaving at most `concurrency` calls are in flight and no target is linted twice. |
| `WorkerPool.EveryInterleavingFillsEverySlot` | scripts/publint-all.ts:127-138 | Every interleaving ends after exactly targets + workers steps, never before, with every target linted once and every slot holding its own result. |
| `WorkerPool.RunAll` | scripts/publint-all.ts:127-145 | Whatever the order of completions, the result is the list of results; "missing result" occurs exactly with targets and no worker. |
| `WorkerPool.Join` | scripts/publint-all.ts:140-144 | Fails exactly on an empty slot, the first one. |

## Left out

- Child processes, npm, git and tar commands, file access, the environment and console output: replaced by parameters or by explicit state.
- Rejection of the executor, durations, output chunks and display strings in gate results.
- The concrete gate lists of the modes and the parsing of arguments and concurrency settings: finite data.
- The TypeScript and Markdown parsers and the type checker: what they report is input; a Markdown parser whose line numbers fall outside the document's lines is not covered.
- Regular-expression term matching: the first offsets of a term in both texts are input to the briefing plan.
- BriefUnits.UnitsBriefingIsCompleteIff: that a parser's outermost blocks are sorted and disjoint is a stated hypothesis (`Ordered`).
- Token rewriting over the tree (`rewrite` in `scripts/rescope-vendor.ts`), hashing, tarball inspection and the checks of a release manifest beyond distinct names and at least one package.
- ConfigLookup.LookupDecl: recursion is bounded by declaration hops.
- ConfigLookupEnds.RankedLookupEnds: a ranking is sufficient, not necessary; an interface that indexes itself at another member, such as `interface A { x: A['y']; y: {} }`, has none though its lookups end.
- ConfigLookupChain.ChainIsExact: where several names are followed at once the exact set of members that are reported unknown is not described beyond the examples.
- ConfigLookupBlind.NeverMisreportedIff: for types with unions, intersections or names of declarations transparency is sufficient; that it is necessary is shown for the others. Computed and quoted member names are compared as written, and of several signatures for all names, which do not compile, the first counts.
- ConfigLookupSound.LookupDeclIsSound: that found is right, and missing means absent rather than merely not there, is for visible declarations; `ConfigLookupClear.DeclNeverWrong` covers missing more widely.
- ConfigLookup takes `declForTypeName` as a finite table from file and name to declaration; the chains of re-exports behind it are not modelled.
- PasteRun.CollectPastes: (`PasteClosure.Resolve`) an import chain that runs in a circle is an outcome of its own, reported as a violation, where the source would not return; one violation stands for the pair the source reports when a relative import is malformed; the JSDoc checks of pasted members are not modelled.
- EditLaws.DeletionLandsIff: for targets that do not overlap themselves, as the one in the table; for others `ExactEdits.PendingEditLandsIff` says the same about the joined text. Empty strings, which the table does not have, are left out of the edit laws.
- RescopePlan.ApplyRunLands: edits of one file must be pairwise independent; the rows of the vendored manifest share their column separators, so for that file only the composition of the writes is covered.
- Publication.Do: a publish is one atomic write of version and tag; that a registry sets `latest` on the first publish of a package by itself is not modelled, nor are queries that fail for other reasons than a missing version.
- EventCollector.Collector.CallSitesFor: that a non-exported helper whose every same-file use is a direct call is called in its own file only is a fact about the language, stated as `ModuleScoping` and shown to be just what is needed; alias resolution is part of the reported uses.
- CanonicalJson.Canon: getters, array holes and inherited properties are not modelled; keys are represented by their place in code-unit order and, for array indices, their number.
- ReferenceFaces: paths are lists of segments, already resolved; diagnostics are records whose text order is a parameter.
- ProseLines.KeptIffProse: the comments are those of the reported HTML values; `CommentSource` says when these are the source's own.
- CommentLines: offsets count characters, where JavaScript counts UTF-16 units.
- Prose renderers, catalog tables and Markdown or Mermaid output.
- `scripts/test-invariants.ts`, `scripts/session-fixture-layout.ts`, and the build, wheel and smoke scripts.
