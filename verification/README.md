# Verified model of the bounded Go verifier

This project models the parts of the verifier in which a mistake would go unnoticed: the admission and expansion of
workflow documents, the parallel fuzz campaign, the resolver of local actions, the neutraliser of tool output, the
currency check of pinned actions, the coverage checker, and the execution of a profile up to its exit status. Each part
follows the code branch by branch, and is proved against definitions that do not mention how the code works.

`dafny verify dfyconfig.toml` checks everything.

## What is proved

**Workflow documents** (`YamlGraph`, `WorkflowExpansion`, `WorkflowTree`, `WorkflowExtraction`, `ExecutionSites`,
`WorkflowInspection`). A decoded document is a heap of nodes that anchors and aliases may make cyclic. `Unfold` gives
the tree that a node spells, as a least fixpoint in which an alias stands for a copy of its target (section 7.1 of YAML
1.2.2). The guarded walk `Expand` knows only a path set, a counter and a depth; it is proved to terminate on every graph
and to succeed exactly when the unfolding is finite, free of nil nodes, at most 100 deep and within the node maximum.
The result is that unfolding, without an alias, in new nodes that no two places share; two aliases of one anchor,
wherever they are met, get copies of their own. The explicit-stack check `ValidWorkflowTree` is exactly a property of
the content tree, although it reuses one key map for every mapping. Both branches of `DecodeWorkflow` therefore mean the
same, and `InspectWorkflowReferences` returns the references of the execution sites that are not null, sorted. Which
places of a document are sites is said by keys and values along a path of child indices, so that the copies of an
aliased job are different places; the list that the search finds is what stands at exactly these places, each named
once, and a returned reference says the value, the line and, beside a remote action, the version that stands there.

**Fuzz campaign** (`Campaign`, `CampaignTiming`, `CampaignReport`, `FuzzOutput`, `FuzzRecord`). Workers, the atomic
counter, the once-only failure record and the contexts are a system of atomic steps; a theorem about all runs covers
every interleaving. No index is given to two workers, an outcome is written once by the worker that drew its index, all
runs end, no state is stuck, and success means that every control ran to its minimum: the last record before `PASS` in
what it printed says so. While the caller's context lives, and if a runner reports nothing but a cancellation only when
its context is done, the reported failure is the least genuine one of its class, as the errors of the runs themselves
say; after a cancellation no worker that had not yet looked starts another control; without a failed control only the
caller's context or the sink can keep the campaign from succeeding. With a clock added, the `k`-th control starts within
`k / workers` timeouts. Whether the computed deadline is long enough is decided exactly, for every minimum that a
control can meet: all workers have left when it expires, in every timed run, if and only if it is not capped at the
maximum. When it is capped, `CappedIsOverrun` builds a run in which every control succeeds and one is still running as
the clock passes the deadline. The backward scan of a fuzz run's output agrees with reading the lines forwards, and the
parser of a record reads exactly the well-formed records.

**Local actions** (`ActionGraph`, `LocalAction`, `LocalActionOwner`). The depth-first resolver with its visited and
active sets and its three budgets succeeds, unless it is cancelled, exactly when the graph reachable from the files seen
so far is `Resolvable`: acyclic, readable, with known workflows, and within the budgets. On success the visited set is
exactly what is reachable, each directory has been read once, nothing is active, and each reachable action's external
references have been emitted once. With a context that never ends, success is equivalent to `Resolvable`. The budgets
hold also after a failure.

**Output** (`ExactWrite`, `Utf8`, `SafeOutput`, `SafeText`, `SafeWriter`). The decoder is that of section 4 of RFC 3629.
Whatever the bytes and whatever counts as printable, a rendering is safe, is the encoding of printable characters, tabs
and line feeds, is left alone when rendered again, spells its input byte for byte, and holds no active `::`, `##[` or
`##vso[` command; the last is also stated without the scanner, by lines and encoded white space. Printable text without
commands is delivered as it is. The direct path emits what the escaper would. Over any sink, which may take any part of
a write, fail, or report a count outside the bytes it was given, the 4 KiB buffer cannot be noticed: success delivers
exactly the rendering, failure a prefix, and a sound sink, which does none of this and always takes something, never
makes a write fail.

**Currency** (`TextLines`, `Decimal`, `ActionVersions`, `ActionTags`, `TagLines`, `Currency`, `RemoteActions`,
`CurrencyCheck`). Versions are compared by component length and then by bytes, which is the order of unbounded numbers
with missing components as zero. What a tag listing means is said of the multiset of its lines, so the order of lines is
irrelevant; which lines say what is stated in the lines a remote prints (`TagLines`). The newest tag is unique, however
the map is read, and a reference is accepted exactly when its commit is that of the newest tag with nothing excluded, or
of the newest tag below the one that it excludes with a reason. The whole check starts from the workflow files and
shares one resolver of local actions among them. While the context lives it accepts exactly when all files can be read,
all they reach is `Resolvable`, every remote action of the files and of every reachable action directory is current, and
no container image among the references is written like a remote action, with a slash before its `@`. The last condition
is not meant: README.md:88 of the repository allows any image with a digest, and goverify/workflow_test.go:26 inspects
`registry.test/build@sha256:…`. But the code looks only at the form of a value and not at the kind of the reference
(workflow_currency.go:113-120), asks for the tags of a repository `registry.test/build`, and never finds the version
that an image does not carry. `PinnedImageFails` gives such a workflow, and `AskedExact` shows that once all is read and
resolved this is the only difference; the model follows the code.

**Coverage** (`Coverage`, `CoveragePrint`, `CoverageReader`). The verdict is a function of the bytes, however the stream
is cut. Rows, identities, numbers and whole profiles are characterised as printed forms; sums stay within 64 bits; a
profile is accepted exactly when it declares statements and no row without executions declares any; the limit on rows is
never what stops the reader.

**Execution** (`Execution`). Results are a prefix of the profile in order, all but the last pass, and nothing is run
after a control that did not pass. Why a request ended is a `Cause`, which has to be true of the runs, the context and
the sink: a text can only have been refused by a sink that is not sound, a request can only have been stopped by a
context that is done, and anything else is what the last run deserves. State, error and exit status are functions of
that cause. With a sound sink and a live context the state is therefore `pass` exactly when the request is valid and
every control earned it, and the output is then the transcript of all controls. The exit status is the documented one
for the state with one exception, which is exact: the caller cancels after its context was asked about the last run and
before that run's own context is asked (execute.go:206-209), as `InGap` says of the two answers. The state is then
`fail`, but the status is that of a cancellation. `CancelledInTheGap` gives such a run, and `ExecuteVerification` shows
that, with an honest runner and a standard error that takes its message, state and status differ exactly then.
README.md:164-172 of the repository promises the status for each state without that exception; the model follows the
code.

## Assumptions

Lexical rules and library parsers are function parameters, and theorems hold for every choice of them: which references
are immutable and how version comments parse (`Rules`), which values name a local directory, what a workflow file and an
action's metadata hold (`Reader`, `World`), `strconv.IsPrint` outside ASCII (`p`), `time.ParseDuration` (`duration`),
and the remote's answer (`Remote`). Where a theorem needs more, its `requires` says so: an honest runner joins none of
the verifier's own error values and reports a cancellation only after the caller's, and `PlainDurations` says that a
duration holds no comma. `Rooted` says that every node of the graph, and so every alias target, lies below the document.
A `Context` is alive when it is not done and nothing can end it; a `Writer` is sound when it never fails, counts right
and always takes something. Both are constants of the environment that methods cannot change, so a statement about them
is about what the code does with a working environment. A Go string is modelled by its bytes where the code works on
bytes, and by its characters in the workflow modules; `CurrencyCheck` turns the latter into their UTF-8 bytes.

## Model

| member | source | states |
|---|---|---|
| `YamlGraph.TreeOfUnfold` | goverify/workflow.go:295-340 | the unfolding of a node does not depend on how many hops are allowed, once there is one |
| `YamlGraph.FiniteContent` | goverify/workflow.go:324-338 | a node that is no alias unfolds exactly when all its content does, to itself over their unfoldings |
| `YamlGraph.FiniteAlias` | goverify/workflow.go:307-320 | an alias unfolds exactly when its target does, to the target's unfolding at the alias's place |
| `YamlGraph.UnfoldHasNoAlias` | goverify/workflow.go:305-321 | the unfolding that follows aliases holds none |
| `WorkflowExpansion.CycleIsInfinite` | goverify/workflow.go:302-304 | a node met again on its own path has no finite unfolding, so the cycle guard refuses nothing else |
| `WorkflowExpansion.Expansion.Expand` | goverify/workflow.go:295-340 | terminates on every graph; succeeds exactly when the unfolding is finite, not too deep and within the count left; restores `active`; adds the size of the unfolding to `nodes` |
| `WorkflowExpansion.Expansion.ExpandAlias` | goverify/workflow.go:305-321 | the alias branch: a copy of the target's unfolding with the line, column and comments of the alias |
| `WorkflowExpansion.Expansion.ExpandContent` | goverify/workflow.go:322-339 | the content branch: the node is counted once and its children are expanded in order |
| `WorkflowExpansion.ExpandWorkflowAliases` | goverify/workflow.go:290-293 | from a fresh owner, success is exactly a finite, nil-free unfolding of depth at most 100 within the maximum; the result spells it in fresh, unshared nodes, none of which is an alias or has an anchor, and the input is untouched |
| `WorkflowExpansion.NodeCount` | goverify/workflow.go:298-301 | the number of nodes made is the number of nodes of the unfolding |
| `WorkflowExpansion.AliasesGetOwnCopies` | goverify/workflow.go:305-321 | two aliases of one anchor that are met at different places of the document, at any depth, get disjoint copies of the same target, each at its own line with its own comments |
| `WorkflowExpansion.PartsAreApart` | goverify/workflow.go:322-339 | parts at two places of an expanded document, neither below the other, share no node |
| `WorkflowExpansion.MetUnfolds` | goverify/workflow.go:295-340 | what stands at a path of the expansion is the unfolding of the node that is met there when aliases are followed on the way |
| `WorkflowTree.UniqueWorkflowKeys` | goverify/workflow.go:342-352 | true exactly when all keys are plain strings other than the merge key and are distinct; what earlier mappings left in the reused map has no influence |
| `WorkflowTree.SoundIsFinite` | goverify/workflow.go:235-255 | a tree that passes the check has a finite content tree |
| `WorkflowTree.ValidWorkflowTree` | goverify/workflow.go:235-255 | the loop over an explicit stack returns true exactly for content trees of at most the maximum of occurrences and depth 100 whose nodes are locally valid and whose mappings have unique keys |
| `WorkflowTree.Admit` | goverify/workflow.go:241-247 | one round of the loop admits the node on top exactly when it is not too deep, locally valid and, for a mapping, uniquely keyed |
| `WorkflowTree.NoAliasExpands` | goverify/workflow.go:213-220 | a valid tree without aliases always expands, and expansion and the document itself unfold to the same tree |
| `WorkflowExtraction.OrdinaryIsAdmitted` | goverify/workflow.go:235-284 | a document of mappings, sequences and scalars under their own tags and of aliases, with plain distinct keys, passes the tree check when it is at most 100 deep and has at most 65,536 nodes |
| `WorkflowExtraction.AdmittedNodes` | goverify/workflow.go:257-284 | every node of an admitted document has its own tag and form, only aliases point elsewhere, and the keys of every mapping are plain and distinct |
| `WorkflowTree.DecodeWorkflow` | goverify/workflow.go:200-221 | either branch returns a root that reads as the unfolding of the document's only child, exactly for decodable documents, and leaves the input alone |
| `WorkflowExtraction.ExpandedWellKeyed` | goverify/workflow.go:342-352 | expansion keeps keys plain, distinct and paired with values, so a field has one meaning after it |
| `WorkflowExtraction.FieldIsUnique` | goverify/workflow.go:485-495 | the value found for a name is the only one stored under it |
| `WorkflowExtraction.AcceptsExactly` | goverify/workflow.go:446-469 | all sites are accepted exactly when each is, when they make at most 4,096 references, and when no null site follows the 4,096th |
| `WorkflowExtraction.WorkflowField` | goverify/workflow.go:485-495 | the search over key and value pairs finds the node that reads as the tree's field, or nothing when there is none |
| `WorkflowExtraction.AppendWorkflowReference` | goverify/workflow.go:446-469 | one site adds one reference unless it is null, and fails when it is no immutable string, has an unreadable comment where one counts, or there is no room |
| `WorkflowExtraction.AppendContainerReference` | goverify/workflow.go:435-444 | a container adds the site of its image, given directly or in a mapping |
| `WorkflowExtraction.AppendServiceReferences` | goverify/workflow.go:394-412 | services add the image of each, in order |
| `WorkflowExtraction.AppendStepReferences` | goverify/workflow.go:414-433 | steps add what each uses, in order |
| `WorkflowExtraction.AppendJobReferences` | goverify/workflow.go:374-392 | a job adds its own use, container, services and steps, in that order, or fails as the first of them does |
| `WorkflowExtraction.WorkflowReferences` | goverify/workflow.go:354-372 | the references are those of the sites in document order, and it fails exactly when a site or a shape is unacceptable |
| `ExecutionSites.SitesExact` | goverify/workflow.go:354-444 | the list of sites is what stands at a list of places, paths of child indices, that names exactly once each place of a `uses` of a job or step and of an image of a container or service, said by keys and values |
| `ExecutionSites.OneReferencePerSite` | goverify/workflow.go:446-469 | an accepted document gives as many references as there are such places that are not null; each has the kind, value and line of its own place, the version that the comment beside a remote action gives, and no version otherwise |
| `ExecutionSites.SiteExact` | goverify/workflow.go:446-483 | a site is acceptable exactly when it is null, or an immutable non-empty string whose comment is readable if it stands beside a remote action; a comment elsewhere never matters |
| `ExecutionSites.ShapeExact` | goverify/workflow.go:354-444 | a document has the shape of a workflow exactly when its jobs are mappings, their services and steps hold mappings, and a container that is a mapping names its image |
| `ExecutionSites.AcceptedExact` | goverify/workflow.go:354-483 | a document is accepted exactly when it has that shape, every place of a site is acceptable, and there is room for the references |
| `WorkflowInspection.SortReferences` | goverify/workflow.go:182-187 | the result is a permutation, ordered by line and then by value |
| `WorkflowInspection.OrderedExact` | goverify/workflow.go:182-187 | ordered means that lines rise and, on one line, values do |
| `WorkflowInspection.LexLeqExact` | goverify/workflow.go:182-187 | of two values the first is the smaller at their first difference, or begins the second |
| `WorkflowInspection.OrderIsDetermined` | goverify/workflow.go:182-187 | any two ordered permutations have the same lines and values at every place; the kind and annotation of references that agree in both may come in either order |
| `WorkflowInspection.InspectWorkflowReferences` | goverify/workflow.go:170-189 | after parsing, success is exactly a decodable document with acceptable sites; the result is ordered, at most 4,096 long and one reference per site that is not null |
| `WorkflowInspection.InspectedPlaces` | goverify/workflow.go:170-189 | the result is made of the references of exactly the places of sites that are not null, each with what stands there |
| `Campaign.RunFuzzControl` | goverify/campaign.go:162-190 | a control succeeds exactly when its process did and the count read from what it printed reaches the minimum; a failed run keeps its own error, and any other failure is the verifier's own |
| `Campaign.ClassesOfRun` | goverify/campaign.go:126-143 | whether a recorded failure counts as a surviving tree or as an echo of a cancellation is decided by the run's own error and report |
| `Campaign.InvAfter` | goverify/campaign.go:83-101 | ownership, the once-only record, the failure record and root failures are kept by every step of every interleaving |
| `Campaign.StepDecreases` | goverify/campaign.go:83-101 | every step lowers a measure |
| `Campaign.RunsEnd` | goverify/campaign.go:102-110 | no run is longer than the measure at its start |
| `Campaign.NoDeadlock` | goverify/campaign.go:83-110 | as long as a worker has not left, some worker can move |
| `Campaign.ControlsAreExclusive` | goverify/campaign.go:88-92 | no two workers run the same control, and there are min(jobs, n) workers |
| `Campaign.OutcomesAreFinal` | goverify/campaign.go:92-93 | an outcome is written once, by the worker that drew its index, and stays |
| `Campaign.FailedFlagIsExact` | goverify/campaign.go:93-111 | after the join the flag is set exactly when some control failed, and the recorded index is that of a failure |
| `Campaign.SuccessIsComplete` | goverify/campaign.go:111-123 | without failure or cancellation every control's recorded run is clean and its output reports the minimum of executions |
| `Campaign.WinnerIsGenuine` | goverify/campaign.go:93-99 | while the caller's context lives, the failure that was recorded first is a genuine one: its run's own error holds no cancellation, or its process tree survived |
| `Campaign.CancellationStopsClaims` | goverify/campaign.go:83-101 | once a failure or the caller has cancelled the campaign, only workers that had already looked draw another index, each at most one |
| `CampaignTiming.DeadlineIsCapped` | goverify/repository.go:283-294 | a campaign's own timeout is its deadline; without one, for any number of jobs, zero counting as one, the deadline is the smaller of the maximum and one timeout per round |
| `CampaignTiming.BatchesExact` | goverify/repository.go:287-288 | the rounds are as many as are needed for all controls, and no more |
| `CampaignTiming.ControlsStartInTime` | goverify/campaign.go:83-110 | in every timed run the k-th claimed control starts by k / workers timeouts |
| `CampaignTiming.CampaignMeetsDeadline` | goverify/repository.go:283-294 | a deadline that is not capped expires only after all workers have left, in every timed run |
| `CampaignTiming.CappedIsOverrun` | goverify/repository.go:283-294 | for any controls, jobs and timeout whose deadline is capped, and any minimum that some output meets, there is a timed run of succeeding controls whose clock passes the deadline while a control is still running |
| `CampaignTiming.DeadlineIsExact` | goverify/repository.go:283-294 | whenever some output meets the minimum: every timed run past the deadline has all workers gone if and only if one timeout per round does not exceed the maximum |
| `CampaignReport.DeterministicFuzzFailure` | goverify/campaign.go:126-143 | a surviving process tree comes before any other root failure and the least index wins; `genuine` tells exactly whether there is such a failure |
| `CampaignReport.WriteFuzzOutcomes` | goverify/campaign.go:145-160 | success writes every control's line once in index order; a failure leaves a prefix of that report and comes from a done context or an unsound sink |
| `CampaignReport.CountIsNamed` | goverify/campaign.go:150-154 | a line names its control and a number of executions that can be read back |
| `CampaignReport.ConcludeCampaign` | goverify/campaign.go:110-124 | from any state that an interleaving reaches: success reports n complete controls; a reported failure is, by the runs' own errors, the first with a surviving tree, else the first that is no echo of a cancellation, and an echo only if there is nothing else; without a failed control only a done context or an unsound sink prevents success |
| `CampaignReport.ReportedExact` | goverify/campaign.go:126-143 | the choice among recorded outcomes is that choice among the runs |
| `CampaignReport.RunControl` | goverify/campaign.go:162-190 | the outcome is that of the run, with the count taken from the terminal record of its output |
| `CampaignReport.MinimumIsPrinted` | goverify/campaign.go:162-190 | a control that ran to its minimum printed a well-formed record of that many executions as the last one before `PASS` and a final `ok` line |
| `CampaignReport.MinimumCanBeMet` | goverify/campaign.go:192-202 | for every 64-bit minimum there is an output that meets it, so no campaign is unable to succeed |
| `FuzzOutput.PreviousOutputLine` | goverify/campaign.go:222-230 | the scan takes the last line of the forward reading and leaves the text that holds the others |
| `FuzzOutput.TerminalFuzzExecutions` | goverify/campaign.go:204-220 | terminates on every text and finds the last record that is directly followed by `PASS`, before a final `ok` line, of the forward reading |
| `FuzzRecord.RecordIsRead` | goverify/campaign.go:232-277 | every well-formed record is read back with its number of executions |
| `FuzzRecord.ReadIsRecord` | goverify/campaign.go:232-266 | whatever is read is a well-formed record with a positive 64-bit count |
| `FuzzRecord.SuffixIsValid` | goverify/campaign.go:268-277 | every printed pair of interesting and total counts is a valid suffix |
| `FuzzRecord.SuffixOfValid` | goverify/campaign.go:268-277 | a valid suffix that is not empty is such a printed pair |
| `FuzzRecord.TerminalExecutions` | goverify/campaign.go:204-239 | the count of a control is that of the last well-formed record before `PASS` and a final `ok` line |
| `ActionGraph.FinishedIsAcyclic` | goverify/local_action.go:69-100 | a finishing order that covers the roots leaves no reachable cycle and holds everything reachable |
| `ActionGraph.FinishedIsResolvable` | goverify/local_action.go:47-100 | a finishing order within the budgets shows the whole reachable graph resolvable |
| `ActionGraph.WorkflowsAreNamed` | goverify/local_action.go:55-60 | `./` and a path under `.github/workflows/` names the workflow at that path, which is known exactly when it is one of the checked files; it is neither followed nor emitted |
| `ActionGraph.OthersAreNamed` | goverify/local_action.go:61-67 | any other value is followed to the directory it names, or emitted if it names none |
| `LocalAction.GenuineMeansUnresolvable` | goverify/local_action.go:47-100 | each reason to fail is a fact about the graph that rules success out, whatever the walk has seen |
| `LocalAction.CycleFound` | goverify/local_action.go:70-72 | an active directory met again is a reachable cycle |
| `LocalAction.BytesFound` | goverify/local_action.go:132-136 | the byte budget is exceeded only if the metadata of reachable directories exceeds it |
| `LocalActionOwner.Owner.Add` | goverify/local_action.go:47-67 | one reference is counted once, emitted if it is external, checked if it names a workflow, and followed if it is local |
| `LocalActionOwner.Owner.AddLocalAction` | goverify/local_action.go:69-100 | a directory is refused when active, skipped when visited, and otherwise finished with all it leads to; `active` is restored |
| `LocalActionOwner.Owner.ReadMetadata` | goverify/local_action.go:102-137 | the bytes of one directory are added to the budget and its references returned |
| `LocalActionOwner.Owner.Expand` | goverify/local_action.go:37-45 | succeeds exactly when all the files reach is resolvable, unless the context ends; then the visited set is the reachable set, each read once, nothing active, and the file's external references with those of newly reached directories are emitted once; no counter ever exceeds its budget |
| `ExactWrite.Bytes` | internal/exactwrite/exactwrite.go:8-23 | over any sink success delivers all bytes and failure a prefix; a sound sink is always success |
| `Utf8.DecodeEncode` | internal/safeoutput/safeoutput.go:141-145 | decoding undoes encoding for every scalar value, whatever follows |
| `Utf8.EncodeDecode` | internal/safeoutput/safeoutput.go:141-145 | a successful decoding is of a scalar value whose encoding is what was read |
| `Utf8.PrintableTexts` | goverify/coverage.go:159-171 | bytes that pass are the encoding of a text of printable characters |
| `Utf8.TextsArePrintable` | goverify/coverage.go:159-171 | every text of printable characters passes |
| `SafeOutput.ClassesAreStandard` | internal/safeoutput/safeoutput.go:131-147 | an ASCII byte stands alone, longer characters hold no ASCII byte, and what follows a kept character has no influence on it |
| `SafeOutput.CommandPrefixes` | internal/safeoutput/safeoutput.go:110-118 | the test by bytes is the test for the three command prefixes |
| `SafeOutput.PlainPrefix` | internal/safeoutput/safeoutput.go:155-183 | escaping never makes a command: one at the start of the rendering was there already |
| `SafeOutput.EscapedIsSafe` | internal/safeoutput/safeoutput.go:94-108 | every rendering passes `safe`, also after text on the same line |
| `SafeOutput.UnchangedIffSafe` | internal/safeoutput/safeoutput.go:33-41 | the rendering leaves bytes alone exactly when they pass `safe` |
| `SafeOutput.DirectPath` | internal/safeoutput/safeoutput.go:33-41 | for safe bytes the direct path emits what the escaper emits |
| `SafeOutput.RenderIsSafe` | internal/safeoutput/safeoutput.go:29-43 | what Write delivers passes `safe`, ends in a line feed unless empty, and is a fixed point of Write |
| `SafeOutput.DiagnosticIsSafe` | internal/safeoutput/safeoutput.go:45-70 | a diagnostic is safe wherever it is put, holds no control character, and is a fixed point |
| `SafeOutput.EscapedSpells` | internal/safeoutput/safeoutput.go:155-204 | the rendering is, byte for byte, the input byte or its escape |
| `SafeOutput.EscapeIsInjective` | internal/safeoutput/safeoutput.go:202-204 | an escape names one byte |
| `SafeOutput.NoActiveCommand` | internal/safeoutput/safeoutput.go:94-129 | safe bytes hold no `##[` or `##vso[`, and no `::` that only encoded white space precedes on its line |
| `SafeOutput.SpaceExact` | internal/safeoutput/safeoutput.go:120-129 | white space is the 25 characters that Unicode calls so |
| `SafeText.SafeIsText` | internal/safeoutput/safeoutput.go:94-147 | safe bytes are the encoding of printable characters, tabs and line feeds |
| `SafeText.DeliveredIsText` | internal/safeoutput/safeoutput.go:29-43 | whatever is written, what is delivered is such a text |
| `SafeText.DiagnosticIsText` | internal/safeoutput/safeoutput.go:45-70 | a diagnostic consists of printable characters |
| `SafeText.TextIsPreserved` | internal/safeoutput/safeoutput.go:29-43 | such a text in which no command begins is delivered as it is, up to the final line feed |
| `SafeText.CharacterIsRendered` | internal/safeoutput/safeoutput.go:131-183 | a character that begins no command is kept if it is printable, or a tab or line feed where lines are kept, and becomes its escapes otherwise |
| `SafeText.StrayByteIsEscaped` | internal/safeoutput/safeoutput.go:141-145 | a byte that begins no character is escaped alone |
| `SafeText.EscapeIsRead` | internal/safeoutput/safeoutput.go:202-204 | an escape is `\x` and two hexadecimal digits, high half first, from which the byte is read back |
| `SafeWriter.IsSafe` | internal/safeoutput/safeoutput.go:94-108 | the loop decides `Safe` |
| `SafeWriter.Diagnostic` | internal/safeoutput/safeoutput.go:45-70 | the loop returns the one-line rendering |
| `SafeWriter.DiagnosticBytes` | internal/safeoutput/safeoutput.go:72-92 | the size reserved for a diagnostic is its exact size |
| `SafeWriter.Renderer.AppendByte` | internal/safeoutput/safeoutput.go:215-224 | nothing handed over is lost or reordered when the buffer is flushed in between; a failing sink holds a prefix, and a sound sink does not fail |
| `SafeWriter.Renderer.Append` | internal/safeoutput/safeoutput.go:185-195 | a character is handed over as it is or as its escapes; only an unsound sink makes it fail |
| `SafeWriter.Renderer.Flush` | internal/safeoutput/safeoutput.go:226-235 | after a flush the sink holds everything handed over; only an unsound sink makes it fail |
| `SafeWriter.WriteEscaped` | internal/safeoutput/safeoutput.go:155-183 | success delivers exactly the rendering and failure a prefix of it; a sound sink is always success |
| `SafeWriter.Write` | internal/safeoutput/safeoutput.go:29-43 | on either path success delivers exactly the rendering and failure a prefix of it; a sound sink is always success |
| `Decimal.DigitsAreCanonical` | goverify/workflow_currency.go:309-319 | the numeral of a number is canonical and has its value |
| `Decimal.CanonicalIsDigits` | goverify/workflow_currency.go:309-319 | a canonical numeral is the numeral of its value |
| `ActionVersions.NamesAreValid` | goverify/workflow_currency.go:287-307 | `v` and one to three numbers between dots make a valid name with these numbers |
| `ActionVersions.ValidIsName` | goverify/workflow_currency.go:287-307 | every valid name is one of these |
| `ActionVersions.ParseActionVersion` | goverify/workflow_currency.go:287-307 | accepts exactly the valid names, and the ends it records, cut to 32 bits, delimit the components of any name shorter than 4 GiB |
| `ActionVersions.ComponentOrder` | goverify/workflow_currency.go:341-346 | length first and bytes second is the order of the numbers, however long |
| `ActionVersions.CompareIsNumeric` | goverify/workflow_currency.go:321-339 | the sign of a comparison is that of the triples of numbers, with missing ones as zero |
| `ActionVersions.SameNumbersSameName` | goverify/workflow_currency.go:249-262 | equal numbers written in equally many components are the same name, so the tie-break leaves no tie |
| `ActionTags.TagMap.AddActionTag` | goverify/workflow_currency.go:173-205 | a line is taken exactly when the listing stays clean, and the map then says what the lines say |
| `ActionTags.ParseActionTags` | goverify/workflow_currency.go:152-171 | accepts exactly the acceptable listings, a property of the multiset of lines, and returns what they say |
| `ActionTags.ListingOrderIsIrrelevant` | goverify/workflow_currency.go:152-205 | listings of the same lines in any order give the same map |
| `ActionTags.SurvivingTags` | goverify/workflow_currency.go:162-200 | on acceptance every tag has a line of its own and a commit of 40 digits, which its peeled line gives if it has one |
| `TagLines.PrintedEntries` | goverify/workflow_currency.go:173-216 | a commit, a tab, `refs/tags/` and a version lists the tag itself with this commit; with `^{}` at its end the line lists the peeled tag |
| `TagLines.EntriesArePrinted` | goverify/workflow_currency.go:173-216 | every line that says something about a version is one of these |
| `TagLines.AcceptableExact` | goverify/workflow_currency.go:152-205 | in these lines: a listing is accepted exactly when all lines have the right form, no version is listed twice, some version is, and every peeled one is listed by itself |
| `TagLines.TagsOfLines` | goverify/workflow_currency.go:180-203 | in these lines: the tags are the versions listed by themselves, with the commit of the peeled line, or of their own line if there is none |
| `TagLines.LowerHexExact` | goverify/workflow.go:568-578 | a commit consists of the given number of lower-case hexadecimal digits |
| `Currency.AboveIsTotal` | goverify/workflow_currency.go:255-259 | of two names exactly one is newer |
| `Currency.LatestIsUnique` | goverify/workflow_currency.go:249-262 | there is at most one newest tag |
| `Currency.SelectLatestActionTag` | goverify/workflow_currency.go:249-262 | the loop finds the newest tag that is not excluded, whatever order the map is read in |
| `Currency.VerifyActionReference` | goverify/workflow_currency.go:218-239 | accepts exactly a current reference: the newest tag with nothing excluded, or the newest below the newest, which is excluded with a reason; in both cases with the tag's commit |
| `CurrencyCheck.CurrentReferenceExact` | goverify/workflow_currency.go:218-239 | what the code decides about the bytes of a pin is what the reference says: version, exclusion and legible reason of its comment, and the commit after its `@` |
| `Currency.Dependencies.AddWorkflowDependencies` | goverify/workflow_currency.go:113-120 | references are grouped in their order by the repository that their value names, whatever their kind, and others are left out |
| `Currency.VerifyDependencies` | goverify/workflow_currency.go:55-75 | over references grouped by repository it succeeds exactly when every remote one is current in an acceptable listing of its repository and the check was not cancelled |
| `RemoteActions.RepositoryExact` | goverify/workflow_currency.go:348-361 | the repository found in a value is the one that `owner/name[/path]@revision` names, and there is one exactly when a slash stands before the first `@` and the value begins with neither `./` nor `docker://` |
| `RemoteActions.UnversionedIsStale` | goverify/workflow_currency.go:218-222 | without a version beside the pin no answer of the remote makes a reference current |
| `CurrencyCheck.UnresolvableMore` | goverify/workflow_currency.go:95-110 | references that cannot be resolved cannot be resolved together with those of more files, so stopping at the first failure is right |
| `CurrencyCheck.EmittedIsReached` | goverify/workflow_currency.go:95-110 | a reference is emitted exactly when it is external and made by a file or by a reachable action directory |
| `CurrencyCheck.ReadWorkflowDependencies` | goverify/workflow_currency.go:89-111 | the loop over the files with one resolver for all: its dependencies are exactly the references of the files and of every reachable directory whose value names a repository; it fails only when a file is unreadable, what they reach is not resolvable, or the context is done |
| `CurrencyCheck.VerifyWorkflowCurrency` | goverify/workflow_currency.go:47-76 | from the files to the verdict, for images without a version: success means, and with a live context follows from, that all files are readable, all they reach is resolvable, every remote action reached is current, and no image reached has a slash before its `@` |
| `CurrencyCheck.AskedExact` | goverify/workflow_currency.go:113-120 | what the code asks about is current exactly when every remote action is and no image is written like one |
| `CurrencyCheck.PinnedImageFails` | goverify/workflow_currency.go:113-120 | a workflow whose only reference is an image pinned by its digest is resolvable and has no stale action, yet is refused whatever the remotes answer |
| `CurrencyCheck.CollectedImagesArePlain` | goverify/workflow.go:471-474 | inspection gives no image a version |
| `Coverage.UnsignedDecimalExact` | goverify/coverage.go:187-203 | a text is accepted as a number exactly when it is the canonical numeral of one that fits 64 bits |
| `Coverage.ParseUnsignedDecimal` | goverify/coverage.go:187-203 | the 64-bit accumulator neither overflows nor refuses a number that fits |
| `Coverage.FieldsOfLine` | goverify/coverage.go:125-135 | some text and two words after it have these fields |
| `Coverage.LineOfFields` | goverify/coverage.go:125-135 | a line with fields is some text and two words after it |
| `Coverage.ValidCoveragePath` | goverify/coverage.go:159-171 | the loop accepts exactly non-empty valid UTF-8 of printable characters |
| `Coverage.IdentityOfRange` | goverify/coverage.go:137-157 | a printable path, a colon and a printed range of positive numbers make a valid identity |
| `Coverage.RangeOfIdentity` | goverify/coverage.go:137-157 | every valid identity is one of these |
| `Coverage.RowsTakeSpace` | goverify/coverage.go:14-17 | a row takes at least 14 bytes with its line feed |
| `Coverage.CoveredExact` | goverify/coverage.go:57-62 | covered never exceeds declared, and equals it exactly when no row without executions declares a statement |
| `CoveragePrint.RowIsRead` | goverify/coverage.go:102-135 | a printed row is read with its own numbers, the statements first and the executions second |
| `CoveragePrint.ReadIsRow` | goverify/coverage.go:102-135 | every line that is read as a row is that row printed |
| `CoveragePrint.ProfileIsPrinted` | goverify/coverage.go:35-64 | a profile is the line `mode: atomic` and its rows printed |
| `CoveragePrint.PrintIsProfile` | goverify/coverage.go:35-64 | the mode line and printed rows whose lines are not too long make a profile of these rows |
| `CoverageReader.Checker.ReadLine` | goverify/coverage.go:73-100 | fragments of any size make the next line of the bytes, or the failure that the limits demand of it |
| `CoverageReader.Checker.Add` | goverify/coverage.go:102-123 | a row is taken exactly when it parses and the sum fits 64 bits, and the summary then is that of the rows |
| `CoverageReader.RoomForRow` | goverify/coverage.go:14-17 | a row that parses is never refused for the limit on rows |
| `CoverageReader.CheckCoverage` | goverify/coverage.go:35-64 | without a read failure the verdict and the summary are those of the profile that the bytes are, or say that they are none |
| `CoverageReader.FragmentsAreInvisible` | goverify/coverage.go:73-100 | two runs over the same bytes agree in verdict and summary |
| `CoverageReader.AcceptedExact` | goverify/coverage.go:54-63 | acceptance is exactly a profile with statements in which no row without executions declares any |
| `CoverageReader.FirstUncoveredExact` | goverify/coverage.go:117-121 | the identity that an incomplete profile names is that of its first uncovered row |
| `Execution.CancelledInTheGap` | execute.go:206-209 | in the gap a successful run gets the state `fail` and the status of a cancellation |
| `Execution.JudgeIsFair` | execute.go:116-123 | whatever the contexts answer, the error is absent exactly for `pass`, a pass was earned by the run, and a run that earned it passes unless the context is done |
| `Execution.JudgeAgrees` | execute.go:200-217 | with an honest runner the error leads to the documented status of the state exactly outside the gap between two looks at the contexts |
| `Execution.StatesAreExact` | execute.go:200-217 | which runs and answers of the contexts lead to which state, and with which errors |
| `Execution.StatusesAreExact` | cmd/secverify/execution.go:108-121 | with an honest runner a surviving tree gives status 1, an unsupported platform 3, a cancellation 4 |
| `Execution.MismatchIsReported` | execute.go:116-123 | output other than expected adds its error, fails a control that would pass, and changes no other state |
| `Execution.ClassifyOutcome` | execute.go:200-217 | looks at the contexts one after the other, returns their answers as a judgement that fits the context, and classifies by these answers |
| `Execution.WriteControlOutput` | execute.go:219-228 | a control's output reaches the sink only in its safe rendering, and only an unsound sink makes that fail |
| `Execution.FailuresAreShown` | execute.go:128-133 | the output of a control that does not pass is shown in full, that of one that passes only on request |
| `Execution.ExecuteControl` | execute.go:96-139 | runs the control at most once; unless an unsound sink refuses a text, the result is the judgement of that run, measures it, and the output is the heading, what is to be shown, and the result |
| `Execution.JudgeRun` | execute.go:116-123 | state and error are those of the judgement, in which a mismatch with the expected output adds its error and turns a pass, and no other state, into a failure |
| `Execution.ExecuteControls` | execute.go:69-94 | results are a prefix in order, all but the last pass, nothing runs after a control that did not, the cause of the end is true of runs, context and sink, and success has written the transcript of all controls |
| `Execution.Execute` | execute.go:23-67 | state and error follow from a cause that is true of the request, the runs, the context and the sink; a finished request has written the profile's line, the transcript and the acknowledgement |
| `Execution.PassIsExact` | execute.go:23-67 | with a live context and a sound sink the state is `pass` exactly when the request is valid and every control that ran earned it; then all controls of the profile ran |
| `Execution.StatusIsExact` | cmd/secverify/execution.go:108-121 | with an honest runner the status of a failed request's error is that of its state exactly unless the last run fell into the gap, and is then that of a cancellation; a stopped request has status 4, a refused or unreported one 2 |
| `Execution.ReportExecutionError` | cmd/secverify/execution.go:65-92 | the status is that of the error when the report is written and 2 when it is not, which takes an unsound standard error |
| `Execution.WriteFailure` | cmd/secverify/execution.go:123-129 | the message is written in its one-line rendering; the status is that of the error, or 2 when an unsound standard error refuses it |
| `Execution.FailureLineIsSafe` | cmd/secverify/execution.go:123-129 | that line is one safe line, whatever the error says |
| `Execution.ExecuteVerification` | cmd/secverify/execution.go:29-38 | the exit status follows from the true cause of the end; with an honest runner and a standard error that takes its message it is the documented one for the state exactly unless the last run fell into the gap |

## Left out

- The YAML, JSON and Go parsers, `proctree`, `time.ParseDuration` and `strconv.IsPrint` are not part of this model; the model starts from their results.
- Reading files and OS roots, file discovery, plan validation, tool resolution, environments and command lines: wiring.
- The lexical rules for immutable references, local directories, workflow paths and version comments are parameters; they are true but easy.
- Symbolic links and files replaced while they are read: outside the repository's own boundary.
- Real clocks: time appears only in the idealised scheduling model, in which a free worker claims at once.
- Error texts, the words of progress lines and of the execution report, and `formatDuration`, which is floating point.
- The benchmark grammar, the inner and outer timeouts, `goCompatibilityVersions`, and the ownership of modules by longest prefix.
- The memory of fragments and of slices: a line is a new value, so sharing of the reader's buffer is not modelled.
- The `Path` of a reference, which only error texts use.
- WorkflowInspection.SortReferences: the library's sort is modelled by an insertion sort; `OrderIsDetermined` shows that the choice cannot be seen in lines and values, and leaves it open for kinds and annotations.
- WorkflowExpansion.Expansion.Expand: the copy of a node is made after its content is complete, and the branches are separate methods; the source fills the copy in place.
- LocalActionOwner.Owner.Expand: the recursive walk is split into several methods; each keeps the order of the source's updates.
- CampaignTiming.CappedIsOverrun: what the deadline does to a control that is still running, since ending a process is the business of `proctree`.
- Currency.VerifyDependencies: repositories are asked in any order, since the sorted order of the source shows only in which error comes first.
- Execution.ClassifyOutcome: a control's own context is modelled by its time being up and by the caller's context; other ways to end it do not exist in the source.
