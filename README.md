# factorio-docker-watchdog, modelled in Dafny

The watchdog keeps the factoriotools Factorio server image up to date.
Every five minutes it reads the Factorio updater feed
(`core-linux_headless64`: upgrade steps with `from`, `to` and `stable`).
For each release line (`major.minor`) it keeps the latest version, and it
reconciles that with what the image repository already holds.

This project models the reconciliation core of three snapshots of the
program:

- **`factorio-docker-watchdog.go`** (module `FactorioDockerWatchdog`)
  - collects the feed's versions and its stable version;
  - sorts the versions and walks them to keep one version per release line;
  - derives each kept version's tags: the version itself, its major, its
    release line, `latest` and `stable`;
  - looks up checksums through a fresh cache of `checksum.go`
    (module `ChecksumCache`) on every check;
  - builds the manifest (`buildinfo.json`);
  - clones the image repository, rewrites its README tag list and manifest,
    commits and pushes.
- **`docker-factorio-watchdog.go`** (module `DockerFactorioWatchdog`)
  - makes the same selection;
  - drops the versions the registry already tags, by removing them from the
    Go slice in place;
  - forgets memoised versions that are now published;
  - opens an update branch for every remaining release line at or above 0.13
    that it has not handled before. Each such branch gets its Dockerfile's
    `VERSION=` and `SHA1=` settings rewritten, a commit, a push and a pull
    request.
  - It remembers which version it handled per release line in
    `latestVersionProceeded` (class `Watchdog`).
- **`watchdog.py`** (module `PyWatchdog`)
  - keeps the highest patch per `major.minor` prefix;
  - tags every kept version with its prefix and its full version, and adds
    `latest` (the greatest prefix, chosen by `get_max_prefix`) and `stable`;
  - compares the result with `buildinfo.json` (`has_diff`);
  - rewrites the README block between the autogeneration markers with
    `re.sub`.

The shared modules are:

- `Semver`: blang/semver restricted to `M.m.p`.
- `Selection`: the "run walk" both Go snapshots use.
- `Readme`: the bullet list of tags.
- `GitEdits`: the text work of `git.go`.
- `Feed`: the feed, manifest and registry records.
- `Strings`: decimal numerals, split/join, substring search and byte-wise
  order.

A Go `logrus.Panic` and a Python exception are modelled as explicit outcome
values: `Panicked`, `Aborted`, `Raised` or `panicked` flags. The network,
git and the file system are parameters that give the outside world's
answers.

Stateful code is imperative Dafny:

- the `Checksums` cache;
- the `Watchdog` memo;
- the in-place slice removal over an `array`;
- the loops of `checkVersion`, `get_max_prefix`, `has_diff`, the tag
  building and `modify_readme`.

Each of these is proved against a specification function. The properties
that matter are proved about those functions.

## Model

| member | source | states |
|---|---|---|
| Semver.Parse | factorio-docker-watchdog.go:38-51 | `semver.Make` accepts only text that is the rendering of the version it returns, and only versions whose numbers fit in a uint64 |
| Semver.ParseToString | factorio-docker-watchdog.go:47-53 | every version whose numbers fit in a uint64 parses back from its string (round trip) |
| Semver.ToStringInjective | docker-factorio-watchdog.go:71 | two versions render alike exactly when they are equal, so comparing `version.String()` with a tag name compares versions |
| Semver.BranchKeyInjective | factorio-docker-watchdog.go:74 | the `"%d.%d"` key is the same exactly when two versions share major and minor |
| Semver.MajorKeyInjective | factorio-docker-watchdog.go:130 | the `"%d"` major tag is the same exactly when the majors are equal |
| Semver.RenderingsAreJoins | factorio-docker-watchdog.go:74 | the version string and the release-line key are the decimal numerals joined by dots |
| Semver.Insert | factorio-docker-watchdog.go:56 | inserting into a sorted list keeps it sorted and adds exactly that element |
| Semver.Sort | factorio-docker-watchdog.go:56 | `semver.Sort` returns an ascending permutation of its input |
| Selection.WalkMembers | factorio-docker-watchdog.go:79-83 | after k steps the walk holds exactly the left sides of release-line boundaries, plus the last version when the final line is kept |
| Selection.FindBoundary | factorio-docker-watchdog.go:79-80 | a version whose line differs from the last version's is followed by a boundary that closes its line |
| Selection.BoundaryIsBranchMax | factorio-docker-watchdog.go:79-80 | on sorted input the version before a boundary is the greatest of its release line |
| Selection.RunWalkMembers | factorio-docker-watchdog.go:66-92 | on sorted input the walk emits exactly each release line's greatest version, except a final release line holding a single version |
| Selection.RunWalkAscending | factorio-docker-watchdog.go:66-92 | the emitted versions are strictly ascending |
| Selection.RunWalkOnePerBranch | docker-factorio-watchdog.go:44-61 | no two emitted versions share a release line |
| Selection.EveryBranchRepresented | docker-factorio-watchdog.go:44-61 | every release line except a dropped final singleton has an emitted version that is at least every version of that line |
| Selection.GreatestEmittedIff | factorio-docker-watchdog.go:81-83 | the greatest version is emitted exactly when the final release line is kept |
| Selection.DropsFinalSingleton | factorio-docker-watchdog.go:79-83 | for 1.2.3, 1.2.5, 1.3.0 the walk keeps only 1.2.5 |
| Readme.BlockLines | git.go:153-161 | splitting the generated tag list at newlines gives one line per entry, in order, and an empty remainder |
| Readme.BlockAvoids | git.go:157-160 | the generated list contains a character only if some tag does, for characters outside the list's own punctuation |
| Readme.BlockIsJoin | git.go:160 | the bullet block is the lines joined by newlines, with a final newline |
| GitEdits.EditReadme | git.go:141-145 | editReadme fails exactly when the start or the end marker is missing |
| GitEdits.GeneratedTagsLines | git.go:147-161 | the generated list has one line per manifest version, keys in strictly descending byte-wise order, each line listing that version's tags |
| GitEdits.SpliceIdempotentWith | git.go:141-163 | splicing again finds the start marker at the same place and the end marker right after the generated text, and keeps the text outside |
| GitEdits.SpliceIdempotent | git.go:163 | with the start marker before the end marker and no `<` in the generated text, a second splice changes nothing |
| GitEdits.EditReadmeIdempotent | git.go:135-171 | editing an already edited README with the same manifest changes nothing, so an unchanged manifest leaves nothing to commit |
| GitEdits.FirstOccurrenceInPrefix | git.go:141-142 | `bytes.Index` finds the same first occurrence in two texts that agree up to past it |
| GitEdits.DockerfilePathPerBranch | git.go:118 | within a checkout two versions edit the same Dockerfile exactly when they share a release line |
| GitEdits.MatchLength | git.go:26-27 | the settings' expressions match at the start of a text exactly at the greedy match's length, or nowhere |
| GitEdits.MatchUnique | git.go:26-27 | the greedy match at a position has a single length |
| GitEdits.LongerIsNotValue | git.go:26-27 | past a greedy match's end the text is no longer a value of the setting |
| GitEdits.ReplaceAllFrame | git.go:124-125 | `ReplaceAll` leaves a text without `VERSION=` or `SHA1=` unchanged |
| GitEdits.OnlyReplacementRemains | git.go:124-125 | after `ReplaceAll` every setting the expression finds holds the replacement: no old value is left and no other value appears |
| GitEdits.VersionStringIsValue | git.go:124 | a version's string is a value of `VERSION=(\d+\.\d+\.\d+)` |
| GitEdits.EditDockerfileVersion | git.go:124 | after editDockerfile every `VERSION=` setting holds the new version |
| GitEdits.EditDockerfileChecksum | git.go:117-133 | after editDockerfile every `SHA1=` setting holds the new checksum when the checksum is `[a-z0-9]+` |
| GitEdits.PushArgs | git.go:85-89 | gitPush runs `push`, and adds `--set-upstream origin <branch>` exactly when a branch is given |
| ChecksumCache.Disk.Save | checksum.go:43-59 | saveChecksums stores the map when the file can be opened or created, and otherwise changes nothing and reports the error |
| ChecksumCache.Mirror.Download | checksum.go:68 | a download returns the mirror's answer for the URL, and the request is recorded |
| ChecksumCache.Checksums.constructor | checksum.go:17-20 | the zero value is unloaded with an empty map |
| ChecksumCache.Checksums.LoadChecksums | checksum.go:22-41 | loading runs once: on the first call the map becomes the file's contents, or empty when the file is missing, unreadable or not valid JSON; a second call changes nothing |
| ChecksumCache.Checksums.GetChecksum | checksum.go:61-84 | a hit answers from the map without downloading; a miss downloads once; a failed download or an empty checksum is returned without storing; a non-empty one is stored and saved, and a failed save returns an error; existing entries never change; the answer is `Lookup` of the state before, and after a successful call every later lookup answers as it would have before |
| ChecksumCache.LookupAfterStore | checksum.go:76-83 | storing a downloaded and saved checksum does not change the answer of any lookup |
| ChecksumCache.RestartFindsSaved | checksum.go:22-84 | a checksum returned successfully is found by a fresh cache over the saved file without another download |
| FactorioDockerWatchdog.Outcomes | factorio-docker-watchdog.go:36-55 | one effect per feed record, in order |
| FactorioDockerWatchdog.OutcomesStep | factorio-docker-watchdog.go:36-55 | each record appends its version, if any, and replaces the stable version, if it has one |
| FactorioDockerWatchdog.CollectVersions | factorio-docker-watchdog.go:33-55 | the collection loop returns the collected versions and the last parsed stable version |
| FactorioDockerWatchdog.RecordOutcomeFields | factorio-docker-watchdog.go:37-53 | a record contributes its `To` exactly when it is non-empty and parses and no unparseable `Stable` made the loop `continue`; it contributes a stable version exactly when its `Stable` is non-empty and parses |
| FactorioDockerWatchdog.CollectedMembers | factorio-docker-watchdog.go:46-53 | a version is collected exactly when some record contributes it |
| FactorioDockerWatchdog.LastStableIsLast | factorio-docker-watchdog.go:37-45 | the stable version is the parsed `Stable` of the last record that has a parseable one, and absent exactly when none has |
| FactorioDockerWatchdog.MajorMaximaStep | factorio-docker-watchdog.go:71-73 | updating highestMajor for one more version keeps it the per-major maximum |
| FactorioDockerWatchdog.BranchMaximaStep | factorio-docker-watchdog.go:74-77 | updating highestMinor for one more version keeps it the per-release-line maximum |
| FactorioDockerWatchdog.NoteMajor | factorio-docker-watchdog.go:71-73 | the two highestMajor updates for a version (insert when absent, replace when less) leave each major's maximum |
| FactorioDockerWatchdog.NoteBranch | factorio-docker-watchdog.go:74-77 | the two highestMinor updates for a version leave each release line's maximum |
| FactorioDockerWatchdog.WalkStep | factorio-docker-watchdog.go:67-84 | one iteration of the run walk appends what the walk specification emits at that index |
| FactorioDockerWatchdog.SelectionStep | factorio-docker-watchdog.go:66-92 | one iteration of the selection loop keeps its invariant |
| FactorioDockerWatchdog.SelectionDone | factorio-docker-watchdog.go:92 | the finished loop has the run walk, the last version, and the maxima per major and per release line |
| FactorioDockerWatchdog.SelectLatest | factorio-docker-watchdog.go:59-92 | the selection loop yields the run walk, the greatest version as lastVersion, and highestMajor and highestMinor holding each major's and release line's maximum |
| FactorioDockerWatchdog.PanicPersists | factorio-docker-watchdog.go:105-108 | once a checksum lookup panicked, the rest of the tagging loop does not matter |
| FactorioDockerWatchdog.EntryTags | factorio-docker-watchdog.go:123-141 | the tags appended step by step are the version-derived tag list |
| FactorioDockerWatchdog.CachedChecksum | factorio-docker-watchdog.go:105-122 | a lookup through the loop's cache answers as the cache did at the start of the loop, and leaves later answers unchanged |
| FactorioDockerWatchdog.TagOne | factorio-docker-watchdog.go:101-142 | one iteration through the cache is one step of the manifest specification, over the cache's answers at the start |
| FactorioDockerWatchdog.BuildManifest | factorio-docker-watchdog.go:95-143 | the tagging loop over a checksum cache yields the manifest specification's map for the cache's answers at its start, or panics exactly when that specification does |
| FactorioDockerWatchdog.InjectsStep | factorio-docker-watchdog.go:104 | the stable entry is injected after one more version exactly when it was before, or stable is not yet emitted and the version is below it |
| FactorioDockerWatchdog.ManifestKeysStep | factorio-docker-watchdog.go:116-142 | one iteration adds the version's key, and the stable key when it injects |
| FactorioDockerWatchdog.StepBuilding | factorio-docker-watchdog.go:105-122 | an iteration panics exactly when it needs a checksum that cannot be delivered |
| FactorioDockerWatchdog.StepMap | factorio-docker-watchdog.go:100-143 | one iteration writes the version's checksum and tags, possibly the injected stable entry, and nothing else |
| FactorioDockerWatchdog.ManifestStepDescribes | factorio-docker-watchdog.go:100-143 | one iteration preserves the manifest's description |
| FactorioDockerWatchdog.ManifestDescribed | factorio-docker-watchdog.go:95-143 | the loop panics exactly when a checksum is missing; otherwise its keys are the emitted versions plus an injected stable version, each emitted version carries its checksum and tags, and an injected stable version carries `[stable, "stable"]` |
| FactorioDockerWatchdog.VersionTagsStartWithDigit | factorio-docker-watchdog.go:126-133 | version, major and release-line tags start with a digit, so they never equal `latest` or `stable` |
| FactorioDockerWatchdog.WordTags | factorio-docker-watchdog.go:135-141 | a version carries `latest` exactly when it is lastVersion and `stable` exactly when it is the stable version; the injected entry never carries `latest` |
| FactorioDockerWatchdog.EmittedTags | factorio-docker-watchdog.go:123-141 | after the selection loop an emitted version is tagged with its version, its major exactly when it is that major's maximum, its release line, `latest` exactly when it is the greatest version, and `stable` exactly when it is stable |
| FactorioDockerWatchdog.EmittedEntries | factorio-docker-watchdog.go:129-135 | for an emitted version, highestMajor's entry equals it exactly when it is its major's maximum, highestMinor's entry is itself, and lastVersion is the greatest version |
| FactorioDockerWatchdog.MajorEntryIff | factorio-docker-watchdog.go:129 | highestMajor's entry for a collected version's major is that version exactly when it is the major's maximum |
| FactorioDockerWatchdog.BranchEntryIs | factorio-docker-watchdog.go:132 | highestMinor's entry for a release line's maximum is that maximum |
| FactorioDockerWatchdog.StableKey | factorio-docker-watchdog.go:109-141 | in the manifest, an entry carries `stable` exactly when it is keyed by the stable version |
| FactorioDockerWatchdog.StableEntry | factorio-docker-watchdog.go:104-141 | the stable version's entry exists exactly when stable was emitted or injected, and its tags end with `stable` |
| FactorioDockerWatchdog.StableTagged | factorio-docker-watchdog.go:95-143 | `stable` is carried only by the stable version's entry, which exists exactly when stable was emitted or injected and whose tags end with `stable` |
| FactorioDockerWatchdog.InjectsWhenBelow | factorio-docker-watchdog.go:104 | on ascending emitted versions the stable entry is injected exactly when some emitted version is below stable |
| FactorioDockerWatchdog.LatestTagged | factorio-docker-watchdog.go:59-143 | `latest` is carried only by the greatest collected version's entry, and only when the walk emitted it |
| FactorioDockerWatchdog.CheckVersion | factorio-docker-watchdog.go:27-146 | checkVersion on a fetched feed: sorted collected versions, run walk, selection maps, the last stable version, the manifest built through a fresh checksum cache over the file on disk (or a panic), and then updateVersion on that manifest: it pushes, or returns quietly on nothing to commit, exactly as updateVersion does |
| FactorioDockerWatchdog.UpdateVersion | factorio-docker-watchdog.go:148-203 | updateVersion clones first and removes the clone last exactly when the clone succeeded; it writes the README when editing succeeds and the manifest after a written README; it returns quietly exactly when the commit finds nothing to commit; it pushes exactly after a successful commit; otherwise it panics |
| DockerFactorioWatchdog.ToVersions | docker-factorio-watchdog.go:30-41 | one optional version per feed record, in order |
| DockerFactorioWatchdog.CollectedToMembers | docker-factorio-watchdog.go:30-41 | a version is collected exactly when some record names it in a non-empty `To` |
| DockerFactorioWatchdog.CollectVersions | docker-factorio-watchdog.go:29-41 | the collection loop returns the parsed non-empty `To` values in feed order |
| DockerFactorioWatchdog.SelectLatest | docker-factorio-watchdog.go:44-61 | the selection loop yields the run walk |
| DockerFactorioWatchdog.SpliceAtParts | docker-factorio-watchdog.go:72 | `append(s[:i], s[i+1:]...)` leaves the slice without element i and the backing array unchanged from the old last slot on |
| DockerFactorioWatchdog.SpliceAtShifts | docker-factorio-watchdog.go:72 | after the splice each later slot holds the element one place further on |
| DockerFactorioWatchdog.RemovalStep | docker-factorio-watchdog.go:70-74 | one iteration keeps the slice well formed over the same backing array, or panics |
| DockerFactorioWatchdog.RemovalPanicPersists | docker-factorio-watchdog.go:72 | once slicing panicked, the removal loop's outcome is a panic |
| DockerFactorioWatchdog.RemovalStepKeeps | docker-factorio-watchdog.go:71 | an iteration on a version not named by the tag changes nothing |
| DockerFactorioWatchdog.RemovalStepSplices | docker-factorio-watchdog.go:71-72 | an iteration within the slice on the named version splices it out |
| DockerFactorioWatchdog.Splice | docker-factorio-watchdog.go:72 | the in-place splice on the backing array equals the splice specification |
| DockerFactorioWatchdog.RemoveTagged | docker-factorio-watchdog.go:70-74 | the range loop on the backing array does what the removal specification does, including reading shifted slots and panicking |
| DockerFactorioWatchdog.WithoutMembers | docker-factorio-watchdog.go:70-74 | a version survives the removal of a name exactly when it is there and has another name |
| DockerFactorioWatchdog.WithoutConcat | docker-factorio-watchdog.go:70-74 | removing a name from a concatenation removes it from both parts |
| DockerFactorioWatchdog.WithoutDistinct | docker-factorio-watchdog.go:70-74 | removal keeps the names distinct |
| DockerFactorioWatchdog.RemovalSingle | docker-factorio-watchdog.go:70-74 | with one version of that name, the loop splices out exactly that one and does not panic |
| DockerFactorioWatchdog.SpliceIsWithout | docker-factorio-watchdog.go:72 | splicing out the only named version leaves the slice without that name |
| DockerFactorioWatchdog.RemovalDistinct | docker-factorio-watchdog.go:70-74 | on distinctly named versions the loop does not panic and leaves exactly the versions of another name, in order |
| DockerFactorioWatchdog.ParseTags | docker-factorio-watchdog.go:65-69 | each registry tag paired with `semver.Make` of its name |
| DockerFactorioWatchdog.Reconcile | docker-factorio-watchdog.go:63-83 | the tag loop keeps the slice well formed over the same array, or aborts |
| DockerFactorioWatchdog.AbortPersists | docker-factorio-watchdog.go:72 | a panic in the tag loop fixes its outcome |
| DockerFactorioWatchdog.WithoutAllMembers | docker-factorio-watchdog.go:63-74 | a version survives the tag loop exactly when no tag with a parseable name is named after it |
| DockerFactorioWatchdog.ReconcileDistinct | docker-factorio-watchdog.go:63-83 | on distinct versions the tag loop never panics and removes exactly the versions some parseable tag names |
| DockerFactorioWatchdog.ReleasedStep | docker-factorio-watchdog.go:76-82 | one more tag releases a memo entry exactly when its version is on the entry's line and is the entry's version |
| DockerFactorioWatchdog.ForgetKept | docker-factorio-watchdog.go:76-82 | forgetting for a parsed tag removes the entries that tag releases |
| DockerFactorioWatchdog.KeptUnparsed | docker-factorio-watchdog.go:66-68 | a tag whose name does not parse leaves the memo alone |
| DockerFactorioWatchdog.ReconcileMemo | docker-factorio-watchdog.go:63-83 | after the tag loop the memo is the old memo without the entries whose version the registry publishes, whatever the order of the tags |
| DockerFactorioWatchdog.Steps | docker-factorio-watchdog.go:109-151 | updateVersion has eight steps in a fixed order |
| DockerFactorioWatchdog.TraceShape | docker-factorio-watchdog.go:109-151 | the effects are the steps reached, then the deferred removal of the clone, or nothing when the clone failed |
| DockerFactorioWatchdog.TraceHas | docker-factorio-watchdog.go:109-151 | a step happens exactly when every step before it succeeded |
| DockerFactorioWatchdog.TraceEnds | docker-factorio-watchdog.go:109-113 | effects exist exactly when the clone succeeds; they start with the clone into `/tmp/factorio-<v>-repo` and end with its removal |
| DockerFactorioWatchdog.TraceBranches | docker-factorio-watchdog.go:116-151 | checkout, push and pull request all name the branch `update-<v>` |
| DockerFactorioWatchdog.PullRequestRefused | github.go:33-41 | a refused pull request panics after the branch was pushed: no pull request is opened and the clone is still removed |
| DockerFactorioWatchdog.SkipStep | docker-factorio-watchdog.go:86-98 | a version below 0.13 or already recorded is skipped without changing anything |
| DockerFactorioWatchdog.UpdateStep | docker-factorio-watchdog.go:100-106 | an update that succeeds records the version for its line and carries on |
| DockerFactorioWatchdog.PanicStep | docker-factorio-watchdog.go:100-111 | an update that panics ends the cycle with the version recorded |
| DockerFactorioWatchdog.SkipKeepsFacts | docker-factorio-watchdog.go:86-98 | a skipped version keeps the loop's facts |
| DockerFactorioWatchdog.UpdateKeepsFacts | docker-factorio-watchdog.go:100 | an updated version keeps the loop's facts |
| DockerFactorioWatchdog.UpdatesKeepFacts | docker-factorio-watchdog.go:85-101 | with one version per line, the loop attempts only listed, unrecorded versions at or above 0.13, records each for its line and leaves the other lines alone; without a panic every such version is recorded |
| DockerFactorioWatchdog.UpdatesComplete | docker-factorio-watchdog.go:85-101 | without a panic every listed, unrecorded version at or above 0.13 is attempted |
| DockerFactorioWatchdog.UpdatesIdle | docker-factorio-watchdog.go:85-98 | a list whose versions are all below the floor or recorded updates nothing |
| DockerFactorioWatchdog.UpdatesSecondPassIdle | docker-factorio-watchdog.go:85-106 | a second pass after one without a panic updates nothing, whatever the outside world does |
| DockerFactorioWatchdog.TraceOfSnoc | docker-factorio-watchdog.go:100 | the cycle's effects are each update's effects in turn |
| DockerFactorioWatchdog.RunWalkDistinct | docker-factorio-watchdog.go:44-61 | the walk's versions have one per line and distinct names |
| DockerFactorioWatchdog.ReconcileWalk | docker-factorio-watchdog.go:63-83 | on the walk's output the tag loop does not panic, removes the published versions and forgets their memo entries |
| DockerFactorioWatchdog.ParsedNames | docker-factorio-watchdog.go:66-71 | a parseable tag names a version within uint64 exactly when the registry has a tag of that version's name |
| DockerFactorioWatchdog.CollectedFits | docker-factorio-watchdog.go:31-38 | every collected version came out of `semver.Make`, so its numbers fit in a uint64 |
| DockerFactorioWatchdog.PendingMembers | docker-factorio-watchdog.go:29-83 | a version is left for updating exactly when it is its line's greatest, its line is not the dropped final singleton, and the registry has no tag named after it |
| DockerFactorioWatchdog.PendingOnePerBranch | docker-factorio-watchdog.go:44-83 | the pending versions have one per release line |
| DockerFactorioWatchdog.KeptUnpublished | docker-factorio-watchdog.go:76-82 | the memo entry of an unpublished version survives the tag loop |
| DockerFactorioWatchdog.CheckAttempts | docker-factorio-watchdog.go:22-102 | a cycle updates only pending versions at or above 0.13 that the memo did not record, and all of them when nothing panics |
| DockerFactorioWatchdog.CheckTwiceIdle | docker-factorio-watchdog.go:12-102 | after a cycle without a panic, the next cycle over the same feed and tags updates nothing |
| DockerFactorioWatchdog.Watchdog.constructor | docker-factorio-watchdog.go:15 | the memo starts empty |
| DockerFactorioWatchdog.Watchdog.ForgetPublished | docker-factorio-watchdog.go:76-82 | the memo forgets a published version's line only when it holds exactly that version |
| DockerFactorioWatchdog.Watchdog.RemovePublished | docker-factorio-watchdog.go:63-83 | the tag loop on the slice's array and the memo does what the reconciliation specification does, panic included |
| DockerFactorioWatchdog.Watchdog.UpdateVersion | docker-factorio-watchdog.go:104-152 | the memo records the version before anything can fail; the effects are the steps up to the first failure plus the deferred removal; it panics exactly when a step fails, a refused pull request included |
| DockerFactorioWatchdog.Watchdog.InClone | docker-factorio-watchdog.go:116-151 | after the clone, the steps run in order up to the first failure, the pull request being the last step that can fail |
| DockerFactorioWatchdog.Watchdog.Visit | docker-factorio-watchdog.go:86-100 | one iteration of the update loop advances the loop specification or ends it with a panic |
| DockerFactorioWatchdog.Watchdog.RunUpdates | docker-factorio-watchdog.go:85-101 | the update loop yields the attempts, memo and panic of the loop specification, and the effects of each attempt in turn |
| DockerFactorioWatchdog.Watchdog.CheckVersion | docker-factorio-watchdog.go:22-102 | one cycle on the feed and the registry tags: the attempts, memo, panic and effects of the cycle specification |
| PyWatchdog.PyIntOfPyStr | watchdog.py:73 | `int` reads back what `str` prints |
| PyWatchdog.RSplitDot | watchdog.py:72 | `rsplit(".", 1)` raises exactly when there is no dot; otherwise the text is the two parts joined by a dot and the second has no dot |
| PyWatchdog.RSplitJoin | watchdog.py:72 | `rsplit` undoes `f"{prefix}.{patch}"` |
| PyWatchdog.Find | watchdog.py:74 | a dict lookup finds a key's position, or reports the key absent |
| PyWatchdog.Put | watchdog.py:75 | a dict assignment replaces a present key in place and appends a new one, keeping keys distinct |
| PyWatchdog.ScanFeed | watchdog.py:68-75 | the feed loop computes the scan specification, raising where it raises |
| PyWatchdog.ScanRaisedPersists | watchdog.py:72-73 | once the scan raised, the rest of the feed does not matter |
| PyWatchdog.ScanRaised | watchdog.py:68-75 | the scan raises exactly when some record's `to` has no dot or an unreadable patch |
| PyWatchdog.ScanStable | watchdog.py:69-70 | stable_version is the `stable` of the last record that has one, and None exactly when none has |
| PyWatchdog.ScanHighest | watchdog.py:68-75 | highest_version_per_prefix holds every prefix some record names, with the greatest patch named for it, and nothing else |
| PyWatchdog.GetMaxPrefix | watchdog.py:8-18 | the loop of get_max_prefix computes the max-prefix specification, raising where it raises |
| PyWatchdog.MaxPrefixRaised | watchdog.py:8-18 | get_max_prefix raises exactly when some prefix does not read as two integers, and returns None exactly for no prefixes |
| PyWatchdog.MaxPrefixGreatest | watchdog.py:12-17 | the returned prefix is the first one whose (major, minor) no other prefix exceeds |
| PyWatchdog.EntryKeyInjective | watchdog.py:80 | distinct (prefix, patch) pairs give distinct `prefix.patch` keys |
| PyWatchdog.StandardIsStandardOf | watchdog.py:78-82 | the standard tags give one entry per prefix in the same order, keyed `prefix.patch` and tagged `[prefix, prefix.patch]` |
| PyWatchdog.StandardIsDict | watchdog.py:78-82 | the standard entries have distinct keys |
| PyWatchdog.BuildTags | watchdog.py:78-90 | the tag-building code computes the tagging specification, raising where it raises |
| PyWatchdog.WithLatestShape | watchdog.py:85-87 | only the entry of the greatest prefix gains `latest`, as its last tag |
| PyWatchdog.StableShape | watchdog.py:88-90 | setdefault and append add `stable` last to the stable key's entry, create it as `["stable"]` when missing, and change nothing else |
| PyWatchdog.TaggingShape | watchdog.py:78-90 | the finished dict is the standard entries in prefix order, with `latest` on the greatest prefix's entry and `stable` on the stable key's entry, created last when missing |
| PyWatchdog.LatestOnce | watchdog.py:85-87 | exactly one entry carries `latest`: the first greatest prefix's, right after its two standard tags |
| PyWatchdog.StableTagged | watchdog.py:88-90 | with a non-empty stable version its entry exists and ends with `stable`, and is exactly `["stable"]` when no prefix produced it; without one no entry carries `stable` |
| PyWatchdog.TaggingRaised | watchdog.py:85-87 | tagging raises exactly when there is no prefix or some prefix does not read as two integers |
| PyWatchdog.HasDiff | watchdog.py:38-46 | has_diff reports a difference exactly when the sizes differ or some new key is missing from the old file or has other tags |
| PyWatchdog.ToMapEntries | watchdog.py:38-46 | the dict read as a map has the same keys, size and tags |
| PyWatchdog.NoDiffSelf | watchdog.py:41-46 | a dict never differs from its own tags |
| PyWatchdog.NoDiffSame | watchdog.py:41-46 | when has_diff reports no difference, the old tags are exactly the new dict's |
| PyWatchdog.Loop | watchdog.py:62-93 | one run computes the run specification: raise, nothing to do, or rewrite with the new dict |
| PyWatchdog.RunTwice | watchdog.py:62-103 | a run that rewrites buildinfo.json is followed, on the same feed, by a run that finds nothing to do |
| PyWatchdog.MatchSpan | watchdog.py:32-33 | the greedy DOTALL pattern matches from a start marker to an end marker that begins after it |
| PyWatchdog.ModifyReadme | watchdog.py:26-35 | the README is rewritten with the bullet list of the dict's tags between the markers |
| PyWatchdog.ReSubSpan | watchdog.py:32-33 | after the substitution the pattern matches again from the same start to the end marker after the new text, and the text outside is unchanged |
| PyWatchdog.ReSubExtract | watchdog.py:32-33 | after the substitution the markers enclose exactly the generated text |
| PyWatchdog.ReSubMatches | watchdog.py:32-33 | a README without the markers in order is left as it is, and one with them keeps them |
| PyWatchdog.ReSubIdempotent | watchdog.py:32-33 | rewriting the README twice with the same list changes nothing more |
| PyWatchdog.GeneratedLines | watchdog.py:27-29 | the generated text is an empty line, one bullet per entry in dict order, and an empty remainder |

## Left out

- Network, subprocess and file I/O. Fetching the feed and the registry tags,
  git clone, checkout, commit and push, reading and writing files, and the
  Discord and GitHub clients are outside the model. Their answers are
  parameters (`UpdateEnv`, `Disk`, `Mirror`, the feed records, the registry
  tags).
- A failed fetch of the feed in either `checkVersion` (a panic before any
  work) is not modelled: the model starts from fetched records.
- `docker-factorio-watchdog.go` ignores the error of `getTags`. The model
  takes the tags as given, which covers the empty list an error leaves.
- `main`, the cron schedule and its recovery from panics are left out: each
  cycle is one call. Only the memo that survives a panic is kept, in the
  `Watchdog` class.
- `gitSetupCredentials`, `gitTagAndPush`, the body of `gitPushBranch` and
  the GitHub client calls of `createPullRequest` are not modelled. The pull
  request and the branch push appear as effects; a refused pull request
  panics like every other failing step (`PullRequestStage`).
- JSON encoding and decoding, and the content `editBuildinfo` writes, are
  not modelled. The manifest is the `BuildInfo` value that is handed over.
- The SHA-1 computation of `factorioGetChecksum` and `get_sha1_hash` is not
  modelled. A download's answer is a parameter.
- The sha1 loop of `watchdog.py` lines 95-97 and `write_buildinfo` are left
  out. `get_sha1_hash` exits the process on an HTTP error, and that is left
  out too. `Loop` stops at the decision to rewrite and returns the new dict.
- Semver.Parse: accepts only `major.minor.patch` with canonical numerals,
  each below 2^64. Prerelease and build suffixes, which `semver.Make`
  accepts, are rejected.
- FactorioDockerWatchdog.BuildManifest: states the manifest through the
  answers the checksum cache gives, not through which downloads it makes.
  After an empty answer for the stable version, `getChecksum` downloads it
  again on every later lookup; those repeated requests reach the `Mirror`
  log but no contract names them.
- PyWatchdog.PyInt: reads an optional sign and ASCII digits. Python's
  `int` also accepts surrounding whitespace and underscores between digits;
  those inputs are treated as raising.
- PyWatchdog.ReSub: inserts the generated text literally. Python would
  interpret backslash escapes in the replacement, and the generated text
  here contains none unless a tag does.
- `has_diff` on an old `buildinfo.json` whose entries lack `tags` (a
  KeyError) is not modelled. The old file is the map of its tags.
- A `stable` value in the Python feed that is not a string is not modelled.
- DockerFactorioWatchdog.RemoveTagged: its result is characterised in full
  (`RemovalDistinct`) only for versions with distinct names, which is what
  the walk produces. For other input the model states it through the
  step-by-step removal specification `RemovalRun` only.
- The run walk in both Go files drops a final release line that holds a
  single version: for 1.2.3, 1.2.5 and 1.3.0 only 1.2.5 is kept, and so
  1.3.0 gets neither an entry nor `latest`. The model follows the code
  (`Selection.DropsFinalSingleton`, `Selection.GreatestEmittedIff`), even
  though the stated intent is one version per release line.
- `editReadme` in `git.go` checks only that both markers are present, not
  their order. `GitEdits.EditReadme` models that
  behaviour as it is; idempotence is proved only for markers in order.
