# Lockness monorepo: verified models

Dafny models of the state machines in the Lockness monorepo that carry its safety claims,
with proofs about every input, every run or every reachable state. Each module follows one
source file or a pair of files that must agree.

| module | what it models |
|---|---|
| `DiContainer` | the dependency injection container: a re-entrant resolver with a registry and a stack of running constructors, which may catch the failures they meet |
| `CycleSearch`, `SearchOrder`, `RingKeys` | the import cycle search, ring keys, exactly which rings the search reports, and what the result owes to order |
| `PackageGraph` | the cycle baseline and the check that uses it, and the list of packages a package must never import |
| `GitObjects`, `PushAdmission`, `PushRuns`, `PushInputs` | git as a finite object graph, the pre-push hook (parsing, admission, ranged scan, gate), whole runs of pushes, and two accepted pushes that leave a ref uncovered |
| `Mirror`, `MirrorRun` | release provenance, syncing one package mirror with an atomic push, a run over all mirrors, and whole sequences of releases |
| `RegistryPaths`, `RouteShapes`, `LocalRegistry` | tar path normalising, route parsing and the shapes it accepts, the append-only store with its seal, the publish handler split at its suspension point |
| `CacheKeys`, `JsonText`, `CacheCoherence` | canonical JSON text, a JSON reader that undoes it, derived cache keys, and exactly when every read through the `@Cached` / `@CacheInvalidate` wrappers is right |
| `GitleaksInstall` | the cached install as single file steps with a stop after any of them |
| `PublishGlob` | the glob to regular expression compiler, a regular expression reader, and the published-file filter |
| `UpgradeGuide`, `LineShapes`, `ReleaseGuard`, `ReleaseBody`, `ReleaseLinks` | the Markdown heading machine and the shapes of the lines it reads, the frozen rule on released sections, and the Release body |
| `Digraph`, `Sequences`, `Strings`, `Options` | shared graph, sequence and string vocabulary |

Objects whose methods update their fields are classes here (`Container`, `CycleFinder`,
`MirrorRemote`, `LocalJsrStore`, `Handler`, `CachedApp`, `CacheEntry`); loops that update
variables are methods with loop invariants; the rest is functions and lemmas. `dafny verify
dfyconfig.toml` checks everything.

What the outside world answers is a parameter: git's and gh's answers, downloads and file
steps that fail, the config parser, `decodeURIComponent`, the hash, and which headings read
like an upgrade section. Where an answer must be truthful for a claim to hold, a predicate
says so (`PushRuns.Truthful`, `Mirror.TruthfulProvenance`, `Mirror.CommitTreeIs`, `GitleaksInstall.GoodHash`).

## Where the code and its documentation differ

The models follow the code. Each of these properties comes with an input it fails on and an
if-and-only-if that says when it holds.

- **"Every distinct cycle" (the cycle search).** Take `a -> b`, `b -> a`, `a -> c`, `c -> b`. The
  search reports `a -> b -> a` and passes over the edge from `c` to `b`, because `b` was left by
  then, so the ring through `c` is never reported (`CycleSearch.MissedRing`, `MissedInput`). A
  ring is reported exactly when it runs over no edge the search passed over
  (`ReportedExactly`); every ring is reported exactly when no such edge lies on a cycle
  (`EveryRingReportedIff`). Whatever the order of edges and names, a ring that shares an edge
  with no other ring is reported (`LoneRingReported`).
- **"No new cycle" (check A).** With `a -> b -> a` in the baseline, the ring through `c` passes the
  check (`PackageGraph.HiddenCycle`). The graph has no new cycle exactly when the check passes
  and no new cycle runs over an edge of a baselined ring (`NoNewCycleIff`).
- **A pushed ref that names no commit.** A tag on a blob or a tree has an empty commit range,
  and an empty range is accepted without a scan (`PushInputs.BlobTagUncovered`).
- **`origin/main` by its short name.** `published` names `refs/remotes/origin/main` in full
  (`scripts/published_objects.ts:53`), as the mirror script does; the merge base and the range of
  a new ref use the short name (`scripts/prepush_secret_scan.ts:163` and `:190`), for which git
  takes a tag or branch called `origin/main` first. A new branch whose unpublished commit such a
  branch names has an empty range and is accepted (`PushInputs.ShadowedMainUncovered`). With the
  item above: an accepted update is covered exactly when it is `Safe`, that is, its content was
  covered already, or its tip is a commit (or a tag of one) and what it shares with whatever
  `origin/main` names is covered (`PushRuns.AcceptedCoveredIff`). In a clone where no tag or branch
  of that name leads out of main's history, being a commit, a tag of one, or covered already is
  the exact condition (`PushRuns.NamedMainCoveredIff`).
- **Cached reads of two objects.** A derived key holds the class's name, the method and the
  arguments, and nothing of `this` (`packages/cache/decorators.ts:130-139`): two objects of one
  class share an entry, and the second one's read returns the first one's value
  (`CacheCoherence.TwoInstances`). Every read of every sequential run is right exactly when
  calls that share a key compute the same and each write drops the reads it changes
  (`CacheCoherence.AlwaysRightIff`). Derived keys achieve the first exactly when what a cached
  method returns depends neither on its receiver, nor on which class of that name it is of, nor on
  the order of object keys (`DerivedKeysSeparateIff`).
- **"Every mirror is at the release."** A mirror that does not exist is skipped, and a run
  without `--create` still succeeds (`MirrorRun.MissingMirrorPasses`). A successful real run
  leaves all mirrors at the release exactly when none was missing or the run was asked to create
  them (`MirrorRun.MirrorPackages`).
- **The forbidden-import list.** `importersOf(target)` leaves out `target` itself, although
  importing oneself closes a cycle too; a new import closes a cycle exactly when it is listed or
  is the target (`PackageGraph.ForbiddenImport`).
- **A publish overtaken while it waits.** An upload that passed the checks and then finds its
  version taken, or the store sealed, is answered by an unhandled error rather than by the 409
  or 403 of the checks (`LocalRegistry.OvertakenByItsVersion`, `OvertakenByTheSeal`). That
  happens exactly when its bundle is good and one of the two overtook it, and it stores nothing
  (`LocalRegistry.ServerErrorIff`).

## Model

| member | source | states |
|---|---|---|
| DiContainer.Container.Get | packages/container/container.ts:90-112 | `get` terminates; it returns an instance exactly when no unregistered non-class token, throwing constructor or cycle is reachable through unregistered classes by calls whose failure nobody catches; the stack is as it was on every path; everything registered before keeps its instance, and every constructor that returned meanwhile stays registered, also when `get` fails; the failure is that of the first lookup, at every level, that fails uncaught |
| DiContainer.Container.Enter | packages/container/container.ts:103-108 | pushing, constructing and popping restores the stack on success and on failure, registers the token only on success, and takes back nothing that was built on the way |
| DiContainer.Container.Construct | packages/container/container.ts:105 | the constructor's lookups are made in order up to the first that fails uncaught; each of them that resolves is registered afterwards, caught ones included, and each that fails leaves behind what it built; one that failed left its token unregistered |
| DiContainer.Container.Session | packages/container/container.ts:90-194 | over any sequence of requests, a resolved token gives the same instance until a `set`, `delete` or `clear` touches it; with `get` requests alone each verdict is the one the starting registry decides |
| DiContainer.Container.Set | packages/container/container.ts:135-137 | the whole new registry |
| DiContainer.Container.Delete | packages/container/container.ts:171-173 | reports whether the token was registered; the whole new registry |
| DiContainer.Container.Clear | packages/container/container.ts:191-193 | the registry is empty afterwards |
| DiContainer.Container.Has | packages/container/container.ts:152-154 | true exactly for registered tokens |
| DiContainer.VerdictUnchanged | packages/container/container.ts:90-112 | services that resolved soundly in between do not change whether another token resolves |
| DiContainer.KeptFromEarlier | packages/container/container.ts:103-108 | what a failing token leaves registered does not depend on what was resolved before |
| DiContainer.ReportsFromEarlier | packages/container/container.ts:90-112 | nor does the failure it ends in |
| DiContainer.FaultyStep | packages/container/container.ts:96-111 | an unregistered class that does not throw itself fails exactly when one of its constructor's uncaught requests fails with the class on the stack |
| DiContainer.ReentryIsCycle | packages/container/container.ts:96-101 | the chain of a circular error is a closed walk of real constructor calls along the stack, each class once, none of them registered |
| DiContainer.CircularIsCycle | packages/container/container.ts:96-101 | a circular error that leaves the container lies on a cycle of the dependency graph on which no call is caught |
| DiContainer.SoundProgramResolves | packages/container/container.ts:90-112 | a program with no throwing constructor, and no cycle and no unknown token behind uncaught calls, resolves each of its tokens |
| CycleSearch.BuildAdjacency | scripts/deps_analyzer.ts:310-316 | the adjacency lists are those of the edges, in insertion order, and hold exactly the binding edges |
| CycleSearch.CycleFinder.Visit | scripts/deps_analyzer.ts:323-338 | the nested traversal terminates and leaves exactly the state of the traversal's recursive specification |
| CycleSearch.CycleFinder.Follow | scripts/deps_analyzer.ts:328-334 | one edge out of the top of the stack closes a ring, starts a visit, or changes nothing |
| CycleSearch.VisitKeeps | scripts/deps_analyzer.ts:323-338 | a visit finishes its node, undoes nothing, and keeps the invariant: every reported list is a closed ring of real edges along the edges visits were entered by, and every edge out of a finished node leads to an earlier finished one or closes a reported ring |
| CycleSearch.SearchKeeps | scripts/deps_analyzer.ts:340-342 | so does the loop over the roots, which finishes every root |
| CycleSearch.ClosingEdgesBreakAll | scripts/deps_analyzer.ts:318-342 | without the closing edges of the traversal's rings the graph has no cycle |
| CycleSearch.Unique | scripts/deps_analyzer.ts:344-352 | the first ring of each key is kept, in order |
| CycleSearch.UniqueKeepsKeys | scripts/deps_analyzer.ts:344-352 | every key keeps one of its rings, and only one |
| SearchOrder.UniqueKeepsFirsts | scripts/deps_analyzer.ts:344-352 | the kept cycles are those at the first place of each key, in order |
| CycleSearch.FindCycles | scripts/deps_analyzer.ts:309-352 | the result is the specification's; every reported list is a closed path of real edges with distinct nodes; the list is empty exactly when the graph is acyclic; removing the reported rings' edges leaves no cycle; no two reported rings are rotations of each other |
| SearchOrder.SourceOrderFree | scripts/deps_analyzer.ts:310-352 | two lists of edges with the same targets in the same order under each source give the same result, in whatever order the sources come up |
| SearchOrder.RootsAscend | scripts/deps_analyzer.ts:340-342 | a visit that no edge led to begins when every smaller package with imports has been visited |
| SearchOrder.ListsAre | scripts/deps_analyzer.ts:310-316 | the list of a source holds its targets once each, in the order they come up |
| CycleSearch.ReportedExactly | scripts/deps_analyzer.ts:328-334 | a ring is reported, up to rotation, if and only if it runs over no edge the search passed over |
| CycleSearch.EveryRingReportedIff | scripts/deps_analyzer.ts:295-309 | every distinct cycle is reported if and only if no edge the search passed over lies on a cycle |
| CycleSearch.LoneRingReported | scripts/deps_analyzer.ts:295-309 | whatever the order of edges and names, a ring that shares an edge with no other ring is reported |
| CycleSearch.MissedRing | scripts/deps_analyzer.ts:328-334 | four edges whose second ring the search does not report, and the edge it passed over |
| CycleSearch.MissedInput | scripts/deps_analyzer.ts:295-309 | so not every distinct cycle of every graph is reported |
| CycleSearch.UniqueKeepsTheEdges | scripts/deps_analyzer.ts:344-352 | dropping rotations loses no edge of a reported ring |
| PackageGraph.PartitionCycles | scripts/deps_analyzer.ts:373-390 | the two lists split the cycles in order: those no baseline entry is a rotation of, and for each other one an entry that is |
| PackageGraph.NoRegressionsIff | scripts/deps_analyzer.ts:373-390 | nothing regressed exactly when every cycle is a rotation of a baseline entry; the two lists account for all cycles |
| PackageGraph.CheckCycles | scripts/deps_analyzer.ts:601-625 | passes exactly when every reported ring is a rotation of a baseline entry; then the graph without the baselined rings' edges is acyclic; a failure means the graph has a cycle; with an empty baseline it is an equivalence |
| PackageGraph.NoNewCycleIff | scripts/deps_analyzer.ts:601-625 | the graph has no new cycle if and only if the check passes and no new cycle runs over an edge of a baselined ring |
| PackageGraph.LoneBaseline | scripts/deps_analyzer.ts:601-625 | when every ring that shares an edge with a baselined ring is a rotation of it, passing and having no new cycle are the same |
| PackageGraph.HiddenCycle | scripts/deps_analyzer.ts:601-625 | a baseline and four edges that pass although one ring is new |
| RingKeys.RotationCanonical | scripts/deps_analyzer.ts:361-364 | all rotations of a ring of distinct names have one canonical spelling |
| RingKeys.RingKeyIffRotation | scripts/deps_analyzer.ts:361-364 | ring keys agree exactly on rotations of one another |
| RingKeys.RotationEdges | scripts/deps_analyzer.ts:361-364 | rotating a ring keeps its set of edges |
| PackageGraph.BuildReverse | scripts/agents_brief.ts:92-97 | the reverse adjacency holds exactly the reversed edges |
| PackageGraph.AddUnseen | scripts/agents_brief.ts:103-107 | the inner loop notes and enqueues exactly the new importers other than the target, once each |
| PackageGraph.ImportersOf | scripts/agents_brief.ts:91-110 | a sorted list without repetition of exactly the other packages with an import path to the target |
| PackageGraph.ForbiddenImport | scripts/agents_brief.ts:81-110 | in an acyclic graph a new import from the target makes the cycle search report something exactly when the imported package is listed by `importersOf`, or is the target |
| GitObjects.ContentHasCommit | scripts/published_objects.ts:133-158 | any tree or blob reachable from a commit or a tag of one is reachable from a commit of its history |
| PushAdmission.ParseUndoesRender | scripts/prepush_secret_scan.ts:100-115 | parsing the hook's input gives back the updates it was printed from |
| PushAdmission.ParsedIff | scripts/prepush_secret_scan.ts:100-115 | any input is read as a list of updates if and only if every line that is not blank has at least four words, and there is one update for each, in order, with the first four as its fields |
| PushAdmission.WordsAre | scripts/prepush_secret_scan.ts:103-106 | the words of a line are its longest runs of characters that are no spaces |
| PushAdmission.ObjectIdIff | scripts/git_env.ts:87 | an object id is 40 or 64 lower-case hex digits |
| PushAdmission.ScanOkMeans | scripts/prepush_secret_scan.ts:356-439 | a scan passes only on a clean exit, a readable empty report, no logged error and, for a non-empty range, commits actually read |
| PushAdmission.AcceptsIff | scripts/prepush_secret_scan.ts:522-602 | exactly which updates pass: well-formed ids, and a delete, nothing unpublished, an empty range, or a range read and found clean |
| PushAdmission.RunPrepushScan | scripts/prepush_secret_scan.ts:476-605 | the push is accepted exactly when there is no tooling config, every non-blank line of the input spells an update, gitleaks installs (when there is anything to scan) and every update is accepted on its own |
| PushAdmission.SkipIff | scripts/prepush.ts:112-173 | the gate is skipped exactly for a non-empty push without deletes of which every update has well-formed ids and sends, as far as git told, only published objects |
| PushAdmission.HookPassesIff | scripts/prepush.ts:212-313 | a push gets through if and only if the scan, started and given its whole input, accepts every update, and the gate passed or the push is non-empty, without deletes and publishes nothing new |
| PushAdmission.HookCodeIs | scripts/prepush.ts:212-313 | the exit code git sees: a failing gate's own, else 0 exactly when the scan, started and given its input, passes, else 1 |
| PushAdmission.SkipIsAdmission | scripts/prepush.ts:112-173 | a push the gate is skipped for takes the scan's admission branch for each update |
| PushRuns.AcceptedTipCovered | scripts/prepush_secret_scan.ts:520-602 | after an accepted update that is `Safe`, everything its tip reaches is published or belongs to a commit scanned clean |
| PushRuns.StepKeepsCovered | scripts/prepush_secret_scan.ts:520-604 | a push of several refs at once of which the remote takes any, whichever git commands fail during it, a growing `refs/remotes/origin/main`, a tag or branch called `origin/main` that comes or goes, or new local objects keep every remote ref covered when the updates that land are `Safe` |
| PushRuns.RunKeepsCovered | scripts/prepush_secret_scan.ts:476-605 | over every run of accepted pushes (new refs, force pushes, deletes, partly refused ones, git failures) whose landed updates are `Safe`, every tree or blob behind a remote ref is published or belongs to a commit scanned clean |
| PushRuns.AcceptedCoveredIff | scripts/prepush_secret_scan.ts:157-192 | the exact condition: an accepted update is covered if and only if its content was covered before, or its tip is a commit or a tag of one and, where the range that judged it excludes `origin/main`, nothing it shares with what that name stands for is uncovered |
| PushRuns.RangeIs | scripts/prepush_secret_scan.ts:157-196 | the commits a scan reads: those behind the tip but not behind the old remote tip; for a new ref not behind `origin/main` if they share history; otherwise all |
| PushRuns.NamedMainCoveredIff | scripts/prepush_secret_scan.ts:157-192 | where no tag or branch called `origin/main` leads out of main's history, an accepted update is covered if and only if its tip is a commit, a tag of one, or was covered before |
| PushRuns.CommitsAreSafe | scripts/prepush_secret_scan.ts:520-604 | in such a clone the run theorem's condition holds of every push of commits, tags of commits and covered content |
| PushRuns.LooseTipAccepted | scripts/prepush_secret_scan.ts:557-569 | a resolvable tip that is no commit is accepted, and clears no commit |
| PushInputs.BlobTagUncovered | scripts/prepush_secret_scan.ts:566-569 | a concrete accepted push of a tag on a blob after which a remote ref is not covered |
| PushInputs.ShadowedMainUncovered | scripts/prepush_secret_scan.ts:157-192 | a concrete accepted push of a commit, behind a local branch called `origin/main`, after which a remote ref is not covered |
| PushRuns.UnresolvedRefused | scripts/prepush_secret_scan.ts:525-565 | a malformed id, or a range this clone cannot resolve, is never accepted as an empty one, whatever fails |
| PushRuns.AdmittedContent | scripts/published_objects.ts:133-180 | what an admitted update sends is covered, also where `rev-list` prints more than the exact difference |
| PushRuns.ScannedContent | scripts/prepush_secret_scan.ts:157-196 | what a scanned or empty range sends is covered, belongs to a commit of the range, or is behind what the short name `origin/main` stands for |
| Mirror.CheckProvenance | scripts/mirror_packages.ts:286-447 | returns the release commit exactly when every provenance fact holds: fetched, tag equal locally and on the remote's first line for it, on `origin/main`, version as tagged, contained in the head of a successful push run on main |
| Mirror.ProvenanceIsHistory | scripts/mirror_packages.ts:34-37 | a commit that passes the check is in the history of `origin/main` |
| Mirror.PlanSync | scripts/mirror_packages.ts:522-589 | when it stops; which commit it settles on; that the refs to push are exactly those that differ from it |
| Mirror.MirrorRemote.PushAtomic | scripts/mirror_packages.ts:610-618 | every named ref moves, or none does |
| Mirror.SyncMirror | scripts/mirror_packages.ts:522-637 | exactly when a sync succeeds; after a successful real run `main` and the version tag name one commit of the release tree that continues the old head; a dry run or a refused push changes no ref; which refs are pushed or would be |
| Mirror.SyncTwice | scripts/mirror_packages.ts:549-593 | a second run with the same flags pushes nothing |
| Mirror.HistoryGrowsByOne | scripts/mirror_packages.ts:569-586 | without flatten the mirror's history loses nothing and gains at most the release's own commit |
| Mirror.FleetHistoryGrows | scripts/mirror_packages.ts:522-637 | over every sequence of releases without flatten a mirror's history only grows, by at most one commit per release |
| Mirror.OnlyPublishedChild | scripts/mirror_packages.ts:558-586 | a release commit on a published-only head is published-only |
| Mirror.MirrorPushIsAdmitted | scripts/prepush.ts:112-173 | the hook skips the gate and admits each update of a mirror push of published content |
| Mirror.FleetRunInv | scripts/mirror_packages.ts:34-37 | over any sequence of releases whose provenance check passed, and any growth of `origin/main`, every mirror ref holds published content only |
| Mirror.EveryReleaseIsAdmitted | scripts/prepush_secret_scan.ts:546-555 | starting from empty mirrors, the branch update and new version tag of each release whose provenance check passed are admitted unscanned, and the gate is skipped |
| MirrorRun.MirrorPackages | scripts/mirror_packages.ts:661-754 | when the run throws and when it refuses; it succeeds exactly when it starts and no creation and no sync it asks for fails; before it starts and in a dry run it touches no mirror; a successful real run leaves every existing mirror at the release, and every mirror exactly when none was missing or creation was asked for |
| MirrorRun.InspectAll | scripts/mirror_packages.ts:696-706 | the inspection stops at the first package without a tree or of unknown state |
| MirrorRun.MissingMirrorPasses | scripts/mirror_packages.ts:708-754 | a run over one missing mirror, not asked to create it, succeeds and leaves it off the release |
| MirrorRun.CreateMissing | scripts/mirror_packages.ts:708-731 | which repositories exist after the creation loop; it succeeds exactly when no creation it attempts fails |
| MirrorRun.SyncAll | scripts/mirror_packages.ts:733-745 | only existing mirrors are touched; none fails exactly when each sync succeeds from where its mirror was, and then each is at the release |
| RegistryPaths.UpstreamIff | scripts/local_jsr.ts:331-389 | exactly which requests go to the upstream |
| RegistryPaths.OwnScopeStaysHere | scripts/local_jsr.ts:351-389 | no request whose decoded scope is the registry's own ever does |
| RegistryPaths.RouteRoundTrip | scripts/local_jsr.ts:310-389 | parsing undoes spelling out a request, for every kind of route and every encoding of its segments |
| RouteShapes.ParsedIsSpelled | scripts/local_jsr.ts:310-389 | the converse: a request classified as one of those routes had exactly that route's decoded segments, and only a POST publishes |
| RouteShapes.NameIff | scripts/local_jsr.ts:96 | exactly the names: lower-case letters and digits, dashes behind the first |
| RouteShapes.VersionIff | scripts/local_jsr.ts:97 | exactly the versions: three numbers and perhaps a suffix |
| RegistryPaths.TarSpellings | scripts/local_jsr.ts:408-418 | every spelling of one plain path (`./`, `/`, `package/`) is stored under one key |
| RegistryPaths.ParentRefused | scripts/local_jsr.ts:411-416 | an entry path with a `..` segment anywhere is refused |
| RegistryPaths.StoredKey | scripts/local_jsr.ts:408-418 | a stored key is a slash and at least one non-empty segment |
| RegistryPaths.StoredPathIsServedPath | scripts/local_jsr.ts:331-418 | the request for any stored entry, however its segments are encoded, parses to a file route with exactly the stored key |
| RegistryPaths.PlainRequest | scripts/local_jsr.ts:331-418 | spelled out for paths that decoding leaves alone |
| LocalRegistry.ReadTarball | scripts/local_jsr.ts:495-518 | a file map exactly for a complete bundle of acceptable entries, with the last bytes stored under each key and nothing else; the first bad entry decides which error it is, or else how the stream ends |
| LocalRegistry.LocalJsrStore.Add | scripts/local_jsr.ts:172-184 | throws exactly on a sealed store or a known version; otherwise appends that version and changes nothing else |
| LocalRegistry.LocalJsrStore.Get | scripts/local_jsr.ts:193-195 | the stored bundle, if any |
| LocalRegistry.LocalJsrStore.Seal | scripts/local_jsr.ts:158-160 | one-way; nothing else changes |
| LocalRegistry.Handler.BeginPublish | scripts/local_jsr.ts:759-793 | the ordered checks before the body is read, as one transition |
| LocalRegistry.Handler.ResumePublish | scripts/local_jsr.ts:794-831 | the steps after the tarball was read, as one transition |
| LocalRegistry.AddedFinds | scripts/local_jsr.ts:172-195 | after an upload every lookup but that version's is unchanged |
| LocalRegistry.RunKeeps | scripts/local_jsr.ts:140-215 | under every interleaving a stored version never changes or disappears, and a sealed store never grows, not even from an upload in flight |
| LocalRegistry.RunInv | scripts/local_jsr.ts:820-829 | every id in the status map names a stored version, and everything stored has a valid name and version |
| LocalRegistry.AcceptedIsStored | scripts/local_jsr.ts:820-831 | a 202 means the uploaded files are stored under that version, which was not stored before |
| LocalRegistry.ResumedIff | scripts/local_jsr.ts:794-831 | each answer comes in its own case only: 202 exactly when the tarball gave files, the one under the config path is a config with an export, the store is open and the version free |
| LocalRegistry.ResumedStores | scripts/local_jsr.ts:820-831 | only an accepted upload changes anything, and it stores its own files and exactly the exports its config has, under its own version |
| LocalRegistry.ReadExportsAre | scripts/local_jsr.ts:537-547 | the string exports, or the one path under `.` |
| LocalRegistry.AcceptedOnce | scripts/local_jsr.ts:759-831 | of all uploads of one version at most one is ever answered 202 |
| LocalRegistry.ServerErrorIff | scripts/local_jsr.ts:820 | a resumed upload ends in an unhandled error if and only if its bundle is good and the store was sealed or got that version meanwhile; it stores nothing |
| LocalRegistry.OvertakenByItsVersion | scripts/local_jsr.ts:781-820 | two uploads of one version in flight: the first to resume is accepted, the other ends in the error |
| LocalRegistry.OvertakenByTheSeal | scripts/local_jsr.ts:766-820 | a seal between the checks and the resumption: the upload ends in the error |
| LocalRegistry.AdmissionIff | scripts/local_jsr.ts:766-793 | an upload is waited for exactly when every check passes, with its own name, version and config path; each of the seven refusals is sent exactly for the first check that fails, a sealed store before the token is looked at |
| LocalRegistry.NoTokenNoUpload | scripts/local_jsr.ts:771-778 | over any run of events, nothing is stored or recorded unless a request with the token and the registry's own scope came in |
| LocalRegistry.PublishThenFetch | scripts/local_jsr.ts:882-903 | after an accepted publish and any further events, requesting an entry's path serves the last bytes the bundle stored for it |
| LocalRegistry.ServedWasPublished | scripts/local_jsr.ts:882-903 | the converse: over any run from the start, the bytes served for a file route came under that path with an upload of its version that was answered 202 |
| CacheKeys.WriteUnique | packages/cache/decorators.ts:108-119 | two canonical texts, each followed by a separator or the end, agree only on equal values and equal rests: no text is ambiguous |
| CacheKeys.StringifyIsWrite | packages/cache/decorators.ts:108-119 | the text is that of the value with keys sorted at every level |
| CacheKeys.CanonIffSame | packages/cache/decorators.ts:115-117 | sorted forms are equal exactly for values equal up to key order |
| CacheKeys.StableStringifyIff | packages/cache/decorators.ts:108-119 | equal text exactly for JSON values equal up to object key order |
| JsonText.TextReadsBack | packages/cache/decorators.ts:108-119 | a JSON reader gets from the text of any value that value back, its keys sorted |
| JsonText.QuoteReadsBack | packages/cache/decorators.ts:109-111 | a JSON string reader undoes quoting, whatever follows |
| JsonText.JsonNumbers | packages/cache/decorators.ts:109-111 | every number of the JSON grammar is covered |
| CacheKeys.ArgsTextIff | packages/cache/decorators.ts:138 | the same for whole argument lists |
| CacheKeys.DerivedKeyIff | packages/cache/decorators.ts:130-139 | derived keys are equal exactly for the same class, method and arguments up to key order |
| JsonText.KeyText | packages/cache/decorators.ts:138 | a derived key is the class, a dot, the method, and the arguments' JSON texts in parentheses with commas between them |
| CacheCoherence.CachedApp.CachedRead | packages/cache/decorators.ts:203-224 | a call that fails the condition has nothing to do with the store; any other returns what is stored under its key, or what the method returns, stored with the tags unless null; no other entry changes |
| CacheCoherence.CachedApp.Invalidate | packages/cache/decorators.ts:267-277 | an entry goes exactly when it has the key or one of the tags; every other entry stays as it is |
| CacheCoherence.CachedApp.InvalidatingWrite | packages/cache/decorators.ts:266-287 | the data and the whole store afterwards, for invalidation before or after the write, throwing or not |
| CacheCoherence.CachedApp.Session | packages/cache/decorators.ts:203-287 | any sequential run of reads, writes and expiries from any store, each result and the final state; from an empty store, with keys that separate and writes that cover, each read returns what the direct call would at that point |
| CacheCoherence.AlwaysRightIff | packages/cache/decorators.ts:203-287 | every read of every run from an empty store returns what the direct call would if and only if cacheable calls that share a key compute the same and every write drops the cacheable reads it changes |
| CacheCoherence.RunKeeps | packages/cache/decorators.ts:203-287 | then the data of a run is what the direct calls leave, and each entry left in the store is right on it |
| CacheCoherence.SharedKeyWrong | packages/cache/decorators.ts:203-224 | of two calls that share a key and compute differently, the one read second is wrong |
| CacheCoherence.UncoveredWrong | packages/cache/decorators.ts:266-287 | a read behind a write that changes it and does not drop it is stale |
| CacheCoherence.DerivedKeysSeparateIff | packages/cache/decorators.ts:130-139 | derived keys separate calls if and only if cacheable results do not depend on the receiver, on which class of one name it is of, or on object key order |
| CacheCoherence.TwoInstances | packages/cache/decorators.ts:203-215 | two objects of one class: the second one's cached read returns the first one's value |
| GitleaksInstall.CacheEntry.IsValidCacheHit | scripts/install_gitleaks.ts:221-229 | a hit exactly for an executable binary whose hash the sidecar records |
| GitleaksInstall.CacheEntry.Install | scripts/install_gitleaks.ts:305-355 | from any state and stopped at any step, the sidecar spells a full hash only of a checksum-verified extraction; a path is returned exactly for a valid entry, which is left alone, or when nothing fails, and holds the genuine binary, executable and recorded; exactly what a failed run and a stopped one leave |
| GitleaksInstall.CacheEntry.Runs | scripts/install_gitleaks.ts:207-355 | over any sequence of runs with any change to the binary in between, every returned path holds the same genuine binary |
| GitleaksInstall.TornIsTrustworthy | scripts/install_gitleaks.ts:197-199 | a sidecar write cut short records no hash of other bytes |
| GitleaksInstall.SidecarReadsBack | scripts/install_gitleaks.ts:185-199 | reading undoes recording |
| PublishGlob.CompileGlob | scripts/publish_check.ts:233-251 | the character loop writes the expression of the pattern's tokens |
| PublishGlob.TokensIff | scripts/publish_check.ts:233-251 | a pattern has one reading as tokens whose pieces are each as long as can be, and that is the one compiled |
| PublishGlob.NormalizeIs | scripts/publish_check.ts:231 | one leading `./` and all slashes at the end are dropped, and nothing else |
| PublishGlob.ParseUndoesRender | scripts/publish_check.ts:252 | an expression reader gets those tokens back: the escapes are right |
| PublishGlob.AcceptsIffMeans | scripts/publish_check.ts:230-255 | the expression accepts exactly the paths that split into pieces the tokens stand for |
| PublishGlob.MatchesPattern | scripts/publish_check.ts:230-255 | for newline-free paths the result is the token meaning for patterns holding one of `*?[]{}`, and equality or directory prefix for others |
| PublishGlob.SelectPublishedFiles | scripts/publish_check.ts:290-304 | keeps exactly what include and exclude lists admit, and the manifest always |
| PublishGlob.SelectionMembers | scripts/publish_check.ts:290-304 | membership of the selection, both directions |
| PublishGlob.SelectionIdempotent | scripts/publish_check.ts:290-304 | selecting twice selects the same |
| PublishGlob.SelectionInOrder | scripts/publish_check.ts:290-304 | the selection is a subsequence of the input |
| UpgradeGuide.ParseUpgradeSections | scripts/release_notes.ts:245-292 | one pass over the lines gives the sections, near-misses and empty sections of the text's headings outside fences |
| UpgradeGuide.EveryOpeningLands | scripts/release_notes.ts:255-290 | for any text, every exact heading outside a fence lands in exactly one of sections and empty sections, in order |
| LineShapes.OpensFenceIff | scripts/release_notes.ts:892-899 | exactly the lines that open a fence, taken apart: indent, three or more backticks or tildes, info |
| LineShapes.ClosesFenceIff | scripts/release_notes.ts:901-905 | exactly the lines that close a given fence |
| LineShapes.UnderlineIff | scripts/release_notes.ts:908 | exactly the setext underlines |
| LineShapes.AtxIff | scripts/release_notes.ts:984-989 | exactly the ATX headings, with level and text |
| LineShapes.StripClosingIs | scripts/release_notes.ts:987 | closing `#`s go with the blanks before them, and only then |
| LineShapes.BreakIff | scripts/release_notes.ts:911 | exactly the thematic breaks |
| LineShapes.InterruptIff | scripts/release_notes.ts:914 | exactly the lines that are code, or start a list item, quote, table row or HTML block |
| LineShapes.NoHeadingBehind | scripts/release_notes.ts:927-977 | behind such a line, a break or a blank one, an underline makes no heading |
| LineShapes.ReleaseIff | scripts/release_notes.ts:85-87 | exactly the versions of three numbers |
| LineShapes.OpensIff | scripts/release_notes.ts:957-982 | a section is opened exactly by an ATX heading of level 2 with exactly the heading text |
| LineShapes.LinesOfBroken | scripts/release_notes.ts:262 | lines are told apart by a newline with or without a carriage return before it |
| LineShapes.SpaceIff | scripts/release_notes.ts:933 | white space, by code point |
| LineShapes.TerminatorIff | scripts/release_notes.ts:892 | line terminators, by code point |
| UpgradeGuide.FillerScans | scripts/release_notes.ts:262-276 | blank lines, closed fenced blocks and prose leave the machine where it was |
| UpgradeGuide.ProseScans | scripts/release_notes.ts:927-941 | lines of prose make no heading, and the blank line behind them ends their paragraph |
| UpgradeGuide.SetextReads | scripts/release_notes.ts:927-972 | lines of text over an underline are one heading of level 1 or 2, at the first line, with the joined text; it opens no section |
| UpgradeGuide.TitleLineReads | scripts/release_notes.ts:957-989 | a printed title line is a level-3 heading with exactly that title |
| UpgradeGuide.SectionLineReads | scripts/release_notes.ts:957-989 | a printed section line opens exactly its version |
| UpgradeGuide.PrintThenParse | scripts/release_notes.ts:245-292 | parsing undoes printing: any blank lines, fenced blocks and prose around the headings, the same sections in order, nothing else reported |
| ReleaseGuard.CompareIsNumeric | scripts/release_notes.ts:997-1004 | printed versions compare as numbers, part by part |
| ReleaseGuard.ParsedAreReleased | scripts/release_notes.ts:87 | every section the parser finds names an `X.Y.Z` version |
| ReleaseGuard.JudgedAre | scripts/release_notes.ts:307-320 | the judged versions are exactly the subject's versions the mode judges, each once, ascending |
| ReleaseGuard.JudgedIsNumeric | scripts/release_notes.ts:307-320 | rendering judges the versions below its own; checking, those up to and with the highest tag, or all if there is none |
| ReleaseGuard.Guard | scripts/release_notes.ts:347-375 | the findings, by version, section and title |
| ReleaseGuard.FindingsAre | scripts/release_notes.ts:353-373 | they are exactly the missing tags and the titles not known at the tag |
| ReleaseGuard.FindingsInOrder | scripts/release_notes.ts:353-373 | findings on earlier versions stand first |
| ReleaseGuard.SectionsInOrder | scripts/release_notes.ts:359-370 | and within a version those of earlier sections |
| ReleaseGuard.TitlesInOrder | scripts/release_notes.ts:361-369 | and within a section those of earlier titles |
| ReleaseGuard.CleanIffFrozen | scripts/release_notes.ts:322-375 | no finding exactly when every judged version has a tag and its titles are a subset of those there |
| ReleaseBody.ComposeBody | scripts/release_notes.ts:434-468 | refuses exactly when no section names the version and commits are marked breaking; otherwise index, notes and log, the log byte for byte at the end |
| ReleaseBody.CollectByPath | scripts/release_notes.ts:441-448 | titles grouped by path, in document order |
| ReleaseBody.IndexListsExactly | scripts/release_notes.ts:455-462 | a bullet is in the index exactly when some section of the version has that title |
| ReleaseBody.BodyLinesAre | scripts/release_notes.ts:452-463 | the index as a whole: the heading, "none recorded" exactly when no section names the version, and each path that has one, once, in ascending order with its link and titles |
| ReleaseBody.TitlesInOrder | scripts/release_notes.ts:441-448 | the titles under a path stand in document order |
| ReleaseBody.OwnTitles | scripts/release_notes.ts:441-448 | each section gives a path its own titles, all of them or none |
| ReleaseBody.RestIs | scripts/release_notes.ts:464-468 | the log is the end of the text, byte for byte; notes stand whole under their heading; without both nothing is added |
| ReleaseLinks.LinkIsAnchor | scripts/release_notes.ts:991-995 | a path's link leads to the anchor of the very heading that opens the version's section, in the file at the version's tag |
| ReleaseLinks.AnchorOf | scripts/release_notes.ts:991-995 | that anchor ends in the version's numbers run together |
| ReleaseBody.NoneRecordedIff | scripts/release_notes.ts:449-454 | "none recorded" exactly when no section names the version |
| ReleaseBody.ListedIsAnnounced | scripts/release_notes.ts:455-468 | each such title stands on a line of its own in the body text |
| ReleaseBody.EnforceGuard | scripts/release_notes.ts:693-734 | a tree passes exactly when every judged section's version is tagged and its titles are titles of that version at its own tag |
| ReleaseBody.PassingIsAnnounced | scripts/release_notes.ts:593-631 | a title a passing tree lists under a judged version is announced in the body composed at that version's tag |
| ReleaseBody.LegalStaysPassing | scripts/release_notes.ts:593-631 | the frozen rule stays true of every tagged tree however many releases follow |
| ReleaseBody.HistoryIsAnnounced | scripts/release_notes.ts:322-468 | along any history of guarded releases, every title a later tree lists under an earlier version is announced in that version's own body |

## Left out

- PushRuns.RunKeepsCovered: asks that each update that lands is `Safe`; for any other update the claim is false, as AcceptedCoveredIff says. Clones are complete (no shallow or partial clone), replace refs are ignored, and a range counts as scanned when gitleaks reports that it read commits and found nothing.
- PushAdmission.RunPrepushScan: does not model which `.gitleaksignore` the disposable worktree gets, nor the log lines; what gitleaks finds is an input.
- Mirror.EveryReleaseIsAdmitted: a version tag that is moved is admitted only when the clone holds its old target (MirrorPushIsAdmitted says so); the statement over whole runs is about new tags.
- MirrorRun.MirrorPackages: parsing `deno.jsonc` and the release listing are inputs, as is each package's tree at the release; the report lines are not modelled.
- PackageGraph.PartitionCycles: says nothing about rings that repeat a name or about names holding `>`, on which ring keys can collide; `FindCycles` never reports such rings for valid package names.
- DiContainer.Container.Get: a constructor is a fixed sequence of `get` calls, each caught or not, followed by a return or a throw; constructors whose later calls depend on how a caught one went, or that call `set`, `delete` or `clear` themselves, are not modelled. Nor are the error messages and `registrations()`.
- LocalRegistry.Handler.BeginPublish: the body, gzip and tar decoding, JSONC parsing and the random id are inputs; host and browser checks before routing, `packageMeta`, `versionMeta`, the version and name lists and the upstream's own redirect check are left out.
- CacheKeys.StableStringifyIff: strings are sequences of Unicode scalar values, so lone surrogates and the UTF-16 order of keys beyond the Basic Multilingual Plane are not modelled; numbers are their JSON text; `undefined`, NaN and non-plain objects are outside it.
- CacheKeys.DerivedKeyIff: class and method names are identifiers; for anonymous classes and for quoted or symbol method names holding a `.` or `(`, keys of different methods can collide.
- CacheCoherence.CachedApp.Session: runs are sequential and start from an empty store that nobody else uses, the driver meets its interface contract and gives values back unchanged, and a write that throws changed nothing; TTL parsing, replacing or closing the global driver, `CacheStore.remember` and concurrent `@Cached` calls are left out.
- GitleaksInstall.CacheEntry.Install: assumes a collision-free hash of which no value is the start of another; platform keys, the cache directory's location and changes made to the sidecar from outside are left out.
- PublishGlob.MatchesPattern: states the meaning for paths without line terminators; for others `**` stops at the terminator, as `.` does. Characters are Unicode scalar values, while the source's expression, without its `u` flag, takes UTF-16 units: there `?` does not match a character beyond the Basic Multilingual Plane, here it does.
- UpgradeGuide.ParseUpgradeSections: the near-miss pattern over Unicode letter classes is a parameter; a title's own Markdown is not interpreted, as in the source.
- ReleaseGuard.Guard: version parts are unbounded numbers; the source reads them as doubles, so parts beyond 2^53 can compare equal there.
- ReleaseBody.ComposeBody: the notes and the log are inputs; reading them, the already-composed check and the search for marked commits are left out.
- Tier and policy checks, Markdown reports, agent briefs beyond `importersOf`, command-line exit codes other than the hook's, auth, RBAC, password formats, the environment helpers and the demo application are not modelled: they keep no state across calls, and nothing here depends on them.
- The rest of `publish_check` (dry-run output, runtime import inventories, JSX policy) is not modelled: it reads what other tools print.
