/** The manifest-building watchdog (factorio-docker-watchdog.go): every
    five minutes it reads the updater feed, keeps one version per release
    line, derives each version's image tags (its own version, its major, its
    release line, "latest", "stable") and publishes the resulting build
    manifest and README list to the image repository. */
module FactorioDockerWatchdog {
  import opened Wrappers
  import opened Strings
  import opened Semver
  import opened Selection
  import opened Feed
  import opened Readme
  import opened GitEdits
  import ChecksumCache

  // ---------------------------------------------------------------------------
  // Collecting the feed (checkVersion, first loop)
  // ---------------------------------------------------------------------------

  /** What one feed record contributes: a stable version and a version to
      collect. A record whose Stable does not parse is skipped entirely. */
  datatype RecordEffect = RecordEffect(stable: Option<Version>, to: Option<Version>)

  function RecordOutcome(r: AvailableVersionsStep): RecordEffect
  {
    if r.stable != "" && Parse(r.stable).None? then RecordEffect(None, None)
    else
      RecordEffect(if r.stable != "" then Parse(r.stable) else None,
                   if r.to != "" then Parse(r.to) else None)
  }

  function Outcomes(steps: seq<AvailableVersionsStep>): (es: seq<RecordEffect>)
    ensures |es| == |steps| && forall i :: 0 <= i < |steps| ==> es[i] == RecordOutcome(steps[i])
  {
    seq(|steps|, i requires 0 <= i < |steps| => RecordOutcome(steps[i]))
  }

  /** The versions the loop appends, in feed order. */
  function CollectedOf(es: seq<RecordEffect>): seq<Version>
  {
    if es == [] then []
    else
      var last := es[|es| - 1];
      CollectedOf(es[..|es| - 1]) + (if last.to.Some? then [last.to.value] else [])
  }

  /** The stable version the loop ends with. */
  function LastStableOf(es: seq<RecordEffect>): Option<Version>
  {
    if es == [] then None
    else if es[|es| - 1].stable.Some? then es[|es| - 1].stable
    else LastStableOf(es[..|es| - 1])
  }

  function Collected(steps: seq<AvailableVersionsStep>): seq<Version>
  {
    CollectedOf(Outcomes(steps))
  }

  function LastStable(steps: seq<AvailableVersionsStep>): Option<Version>
  {
    LastStableOf(Outcomes(steps))
  }

  /** One more record adds its effect to what the records before it gave. */
  lemma OutcomesStep(steps: seq<AvailableVersionsStep>, i: nat)
    requires i < |steps|
    ensures var e := RecordOutcome(steps[i]);
            && CollectedOf(Outcomes(steps[..i + 1])) ==
                 CollectedOf(Outcomes(steps[..i])) + (if e.to.Some? then [e.to.value] else [])
            && LastStableOf(Outcomes(steps[..i + 1])) ==
                 (if e.stable.Some? then e.stable else LastStableOf(Outcomes(steps[..i])))
  {
    var es := Outcomes(steps[..i + 1]);
    assert es[..i] == Outcomes(steps[..i]);
  }

  method CollectVersions(steps: seq<AvailableVersionsStep>) returns (versions: seq<Version>, stableVersion: Option<Version>)
    ensures versions == Collected(steps)
    ensures stableVersion == LastStable(steps)
  {
    versions := [];
    stableVersion := None;
    var i := 0;
    while i < |steps|
      invariant 0 <= i <= |steps|
      invariant versions == CollectedOf(Outcomes(steps[..i]))
      invariant stableVersion == LastStableOf(Outcomes(steps[..i]))
    {
      OutcomesStep(steps, i);
      var r := steps[i];
      if r.stable != "" {
        var v := Parse(r.stable);
        if v.None? {
          i := i + 1;
          continue;
        }
        stableVersion := v;
      }
      if r.to != "" {
        var v := Parse(r.to);
        if v.None? {
          i := i + 1;
          continue;
        }
        versions := versions + [v.value];
      }
      i := i + 1;
    }
    assert steps[..|steps|] == steps;
  }

  /** Record r contributes v: a non-empty To that parses to v, and no
      unparseable Stable. */
  predicate Contributes(r: AvailableVersionsStep, v: Version)
  {
    r.to != "" && Parse(r.to) == Some(v) && (r.stable == "" || Parse(r.stable).Some?)
  }

  /** Record r has a non-empty Stable that parses. */
  predicate HasStable(r: AvailableVersionsStep)
  {
    r.stable != "" && Parse(r.stable).Some?
  }

  lemma RecordOutcomeFields(r: AvailableVersionsStep)
    ensures forall v :: RecordOutcome(r).to == Some(v) <==> Contributes(r, v)
    ensures RecordOutcome(r).stable.Some? <==> HasStable(r)
    ensures HasStable(r) ==> RecordOutcome(r).stable == Parse(r.stable)
  {
  }

  lemma {:induction false} CollectedOfMembers(es: seq<RecordEffect>, v: Version)
    ensures v in CollectedOf(es) <==> exists i :: 0 <= i < |es| && es[i].to == Some(v)
  {
    if es != [] {
      var n := |es| - 1;
      CollectedOfMembers(es[..n], v);
      assert forall i :: 0 <= i < n ==> es[..n][i] == es[i];
    }
  }

  /** A version is collected exactly when some record names it in a
      non-empty, parseable To and does not carry an unparseable Stable. */
  lemma CollectedMembers(steps: seq<AvailableVersionsStep>, v: Version)
    ensures v in Collected(steps) <==> exists i :: 0 <= i < |steps| && Contributes(steps[i], v)
  {
    var es := Outcomes(steps);
    CollectedOfMembers(es, v);
    forall i | 0 <= i < |steps|
      ensures es[i].to == Some(v) <==> Contributes(steps[i], v)
    {
      RecordOutcomeFields(steps[i]);
    }
  }

  lemma {:induction false} LastStableOfNone(es: seq<RecordEffect>)
    ensures LastStableOf(es).None? <==> forall i :: 0 <= i < |es| ==> es[i].stable.None?
  {
    if es != [] {
      var n := |es| - 1;
      LastStableOfNone(es[..n]);
      assert forall i :: 0 <= i < n ==> es[..n][i] == es[i];
    }
  }

  lemma {:induction false} LastStableOfIndex(es: seq<RecordEffect>) returns (i: nat)
    requires LastStableOf(es).Some?
    ensures i < |es| && es[i].stable == LastStableOf(es)
    ensures forall j :: i < j < |es| ==> es[j].stable.None?
  {
    var n := |es| - 1;
    if es[n].stable.Some? {
      i := n;
    } else {
      i := LastStableOfIndex(es[..n]);
      assert es[..n][i] == es[i];
      assert forall j :: i < j < n ==> es[..n][j] == es[j];
    }
  }

  /** The stable version is the parsed Stable of the last record that has a
      parseable one, and there is none exactly when no record has one. */
  lemma LastStableIsLast(steps: seq<AvailableVersionsStep>)
    ensures LastStable(steps).None? <==> forall i :: 0 <= i < |steps| ==> !HasStable(steps[i])
    ensures LastStable(steps).Some? ==>
              exists i :: 0 <= i < |steps| && HasStable(steps[i])
                          && Parse(steps[i].stable) == LastStable(steps)
                          && forall j :: i < j < |steps| ==> !HasStable(steps[j])
  {
    var es := Outcomes(steps);
    LastStableOfNone(es);
    forall i | 0 <= i < |steps|
      ensures es[i].stable.Some? <==> HasStable(steps[i])
      ensures HasStable(steps[i]) ==> es[i].stable == Parse(steps[i].stable)
    {
      RecordOutcomeFields(steps[i]);
    }
    if LastStable(steps).Some? {
      var i := LastStableOfIndex(es);
    }
  }

  // ---------------------------------------------------------------------------
  // Selecting one version per release line (checkVersion, second loop)
  // ---------------------------------------------------------------------------

  /** x occurs in vs and no version of its major in vs is greater. */
  predicate IsMajorMax(vs: seq<Version>, x: Version)
  {
    x in vs && forall y :: y in vs && SameMajor(y, x) ==> Leq(y, x)
  }

  predicate SameMajor(x: Version, y: Version)
  {
    x.major == y.major
  }

  /** highestMajor holds, for every major of vs, that major's maximum. */
  predicate MajorMaxima(vs: seq<Version>, highestMajor: map<nat, Version>)
  {
    && (forall m {:trigger highestMajor[m]} :: m in highestMajor ==> highestMajor[m].major == m && IsMajorMax(vs, highestMajor[m]))
    && (forall v :: v in vs ==> v.major in highestMajor)
  }

  /** highestMinor holds, under every "M.m" key of vs, that release line's maximum. */
  predicate BranchMaxima(vs: seq<Version>, highestMinor: map<string, Version>)
  {
    && (forall k {:trigger highestMinor[k]} :: k in highestMinor ==> BranchKey(highestMinor[k]) == k && IsBranchMax(vs, highestMinor[k]))
    && (forall v :: v in vs ==> BranchKey(v) in highestMinor)
  }

  /** Everything the selection loop establishes. */
  predicate SelectionFacts(vs: seq<Version>, lastVersions: seq<Version>, lastVersion: Version,
                           highestMajor: map<nat, Version>, highestMinor: map<string, Version>)
  {
    && lastVersions == RunWalk(vs)
    && lastVersion == (if vs == [] then Zero else vs[|vs| - 1])
    && MajorMaxima(vs, highestMajor)
    && BranchMaxima(vs, highestMinor)
  }

  lemma MajorMaximaStep(vs: seq<Version>, v: Version, hm: map<nat, Version>, hm': map<nat, Version>)
    requires MajorMaxima(vs, hm)
    requires hm' == hm[v.major := if v.major in hm && !Less(hm[v.major], v) then hm[v.major] else v]
    ensures MajorMaxima(vs + [v], hm')
  {
    var ws := vs + [v];
    forall m | m in hm'
      ensures hm'[m].major == m && IsMajorMax(ws, hm'[m])
    {
      var x := hm'[m];
      assert x in ws;
      forall y | y in ws && SameMajor(y, x)
        ensures Leq(y, x)
      {
        if y != v {
          assert y in vs;
        }
      }
    }
  }

  lemma BranchMaximaStep(vs: seq<Version>, v: Version, hm: map<string, Version>, hm': map<string, Version>)
    requires BranchMaxima(vs, hm)
    requires var k := BranchKey(v);
             hm' == hm[k := if k in hm && !Less(hm[k], v) then hm[k] else v]
    ensures BranchMaxima(vs + [v], hm')
  {
    var ws := vs + [v];
    var key := BranchKey(v);
    forall k | k in hm'
      ensures BranchKey(hm'[k]) == k && IsBranchMax(ws, hm'[k])
    {
      var x := hm'[k];
      assert x in ws;
      forall y | y in ws && SameBranch(y, x)
        ensures Leq(y, x)
      {
        if y != v {
          assert y in vs;
          BranchKeyInjective(y, hm[k]);
        } else if k != key {
          BranchKeyInjective(v, x);
        }
      }
    }
  }

  /** The two updates of highestMajor for one version (lines 71-73 and
      86-88): insert when absent, replace when strictly greater. */
  method NoteMajor(ghost seen: seq<Version>, highestMajor: map<nat, Version>, version: Version)
    returns (updated: map<nat, Version>)
    requires MajorMaxima(seen, highestMajor)
    ensures MajorMaxima(seen + [version], updated)
  {
    updated := highestMajor;
    if version.major !in updated {
      updated := updated[version.major := version];
    }
    if Less(updated[version.major], version) {
      updated := updated[version.major := version];
    }
    MajorMaximaStep(seen, version, highestMajor, updated);
  }

  /** The two updates of highestMinor for one version (lines 74-77 and 89-91). */
  method NoteBranch(ghost seen: seq<Version>, highestMinor: map<string, Version>, version: Version)
    returns (updated: map<string, Version>)
    requires BranchMaxima(seen, highestMinor)
    ensures BranchMaxima(seen + [version], updated)
  {
    updated := highestMinor;
    var highestMinorKey := BranchKey(version);
    if highestMinorKey !in updated {
      updated := updated[highestMinorKey := version];
    }
    if Less(updated[highestMinorKey], version) {
      updated := updated[highestMinorKey := version];
    }
    BranchMaximaStep(seen, version, highestMinor, updated);
  }

  /** One iteration of the run walk (lines 67-70 and 79-84 of the loop body). */
  method WalkStep(versions: seq<Version>, i: nat, firstRun: bool, lastVersion: Version,
                  lastVersions: seq<Version>)
    returns (firstRun': bool, lastVersion': Version, lastVersions': seq<Version>)
    requires i < |versions|
    requires firstRun <==> i == 0
    requires lastVersion == (if i == 0 then Zero else versions[i - 1])
    requires lastVersions == Walk(versions, i)
    ensures !firstRun' && lastVersion' == versions[i]
    ensures lastVersions' == Walk(versions, i + 1)
  {
    var version := versions[i];
    firstRun' := firstRun;
    var previous := lastVersion;
    if firstRun' {
      previous := version;
      firstRun' := false;
    }
    lastVersions' := lastVersions;
    if previous.major != version.major || previous.minor != version.minor {
      lastVersions' := lastVersions' + [previous];
    } else if i + 1 == |versions| {
      lastVersions' := lastVersions' + [version];
    }
    lastVersion' := version;
  }

  /** The state of the selection loop after its first i iterations. */
  predicate SelectionAfter(versions: seq<Version>, i: nat, firstRun: bool, lastVersions: seq<Version>,
                           lastVersion: Version, highestMajor: map<nat, Version>,
                           highestMinor: map<string, Version>)
  {
    && i <= |versions|
    && (firstRun <==> i == 0)
    && lastVersion == (if i == 0 then Zero else versions[i - 1])
    && lastVersions == Walk(versions, i)
    && MajorMaxima(versions[..i], highestMajor)
    && BranchMaxima(versions[..i], highestMinor)
  }

  /** One iteration of the selection loop (lines 66-92). */
  method SelectionStep(versions: seq<Version>, i: nat, firstRun: bool, lastVersions: seq<Version>,
                       lastVersion: Version, highestMajor: map<nat, Version>,
                       highestMinor: map<string, Version>)
    returns (firstRun': bool, lastVersions': seq<Version>, lastVersion': Version,
             highestMajor': map<nat, Version>, highestMinor': map<string, Version>)
    requires i < |versions|
    requires SelectionAfter(versions, i, firstRun, lastVersions, lastVersion, highestMajor, highestMinor)
    ensures SelectionAfter(versions, i + 1, firstRun', lastVersions', lastVersion', highestMajor', highestMinor')
  {
    var version := versions[i];
    firstRun', lastVersion', lastVersions' := WalkStep(versions, i, firstRun, lastVersion, lastVersions);
    highestMajor' := NoteMajor(versions[..i], highestMajor, version);
    highestMinor' := NoteBranch(versions[..i], highestMinor, version);
    PrefixStep(versions, i);
  }

  lemma SelectionStart(versions: seq<Version>)
    ensures SelectionAfter(versions, 0, true, [], Zero, map[], map[])
  {
    assert versions[..0] == [];
  }

  lemma SelectionDone(versions: seq<Version>, firstRun: bool, lastVersions: seq<Version>,
                      lastVersion: Version, highestMajor: map<nat, Version>,
                      highestMinor: map<string, Version>)
    requires SelectionAfter(versions, |versions|, firstRun, lastVersions, lastVersion, highestMajor, highestMinor)
    ensures SelectionFacts(versions, lastVersions, lastVersion, highestMajor, highestMinor)
  {
    PrefixWhole(versions);
  }

  /** The selection loop: the run walk into lastVersions, and the maxima per
      major and per release line into highestMajor and highestMinor. */
  method SelectLatest(versions: seq<Version>)
    returns (lastVersions: seq<Version>, lastVersion: Version,
             highestMajor: map<nat, Version>, highestMinor: map<string, Version>)
    ensures SelectionFacts(versions, lastVersions, lastVersion, highestMajor, highestMinor)
  {
    lastVersion := Zero;
    highestMajor := map[];
    highestMinor := map[];
    var firstRun := true;
    lastVersions := [];
    var i := 0;
    SelectionStart(versions);
    while i < |versions|
      invariant SelectionAfter(versions, i, firstRun, lastVersions, lastVersion, highestMajor, highestMinor)
    {
      firstRun, lastVersions, lastVersion, highestMajor, highestMinor :=
        SelectionStep(versions, i, firstRun, lastVersions, lastVersion, highestMajor, highestMinor);
      i := i + 1;
    }
    assert i == |versions|;
    SelectionDone(versions, firstRun, lastVersions, lastVersion, highestMajor, highestMinor);
  }

  // ---------------------------------------------------------------------------
  // Tagging the selected versions (checkVersion, third loop)
  // ---------------------------------------------------------------------------

  /** What the tagging loop reads from the earlier loops. */
  datatype TagContext = TagContext(highestMajor: map<nat, Version>, highestMinor: map<string, Version>,
                                   lastVersion: Version, stable: Option<Version>)

  /** highestMajor[v.Major]: a missing key reads as Go's zero version. */
  function MajorEntry(ctx: TagContext, v: Version): Version
  {
    if v.major in ctx.highestMajor then ctx.highestMajor[v.major] else Zero
  }

  /** highestMinor["M.m"], with the same zero default. */
  function BranchEntry(ctx: TagContext, v: Version): Version
  {
    if BranchKey(v) in ctx.highestMinor then ctx.highestMinor[BranchKey(v)] else Zero
  }

  /** The tags lines 123-141 append for v, in order: its version, its major
      and its release line when v is their highest version, "latest" when it
      is the last version and "stable" when it is the stable one. */
  function TagList(v: Version, major: bool, branch: bool, latest: bool, stable: bool): seq<string>
  {
    [ToString(v)]
    + (if major then [MajorKey(v)] else [])
    + (if branch then [BranchKey(v)] else [])
    + (if latest then ["latest"] else [])
    + (if stable then ["stable"] else [])
  }

  /** The tags of an emitted version. */
  function TagsFor(ctx: TagContext, v: Version): seq<string>
  {
    TagList(v, MajorEntry(ctx, v) == v, BranchEntry(ctx, v) == v, v == ctx.lastVersion, ctx.stable == Some(v))
  }

  /** The tags of the injected stable entry (lines 111-114). */
  function StableTags(s: Version): seq<string>
  {
    [ToString(s), "stable"]
  }

  /** The tagging loop's state: the manifest so far and stableFound, or the
      panic of a failed checksum lookup. */
  datatype ManifestState = Building(versions: map<string, BuildInfoVersion>, stableFound: bool) | Panicked

  /** One iteration for emitted version v (lines 101-142). sums holds the
      checksums getChecksum can deliver; a version without one is an error,
      and logrus.Panicln ends the check. */
  function ManifestStep(ctx: TagContext, sums: map<Version, string>, st: ManifestState, v: Version): ManifestState
  {
    if st.Panicked? then Panicked
    else
      var injecting := !st.stableFound && ctx.stable.Some? && Less(v, ctx.stable.value);
      if injecting && ctx.stable.value !in sums then Panicked
      else if v !in sums then Panicked
      else
        var m := if injecting
                 then st.versions[ToString(ctx.stable.value) :=
                                    BuildInfoVersion(sums[ctx.stable.value], StableTags(ctx.stable.value))]
                 else st.versions;
        Building(m[ToString(v) := BuildInfoVersion(sums[v], TagsFor(ctx, v))],
                 st.stableFound || ctx.stable == Some(v))
  }

  /** The tagging loop over the first |ls| emitted versions. */
  function Manifest(ctx: TagContext, sums: map<Version, string>, ls: seq<Version>): ManifestState
  {
    if ls == [] then Building(map[], false)
    else ManifestStep(ctx, sums, Manifest(ctx, sums, ls[..|ls| - 1]), ls[|ls| - 1])
  }

  lemma {:induction false} PanicPersists(ctx: TagContext, sums: map<Version, string>, ls: seq<Version>, i: nat)
    requires i <= |ls| && Manifest(ctx, sums, ls[..i]).Panicked?
    ensures Manifest(ctx, sums, ls).Panicked?
    decreases |ls| - i
  {
    if i < |ls| {
      PrefixStep(ls, i);
      PanicPersists(ctx, sums, ls, i + 1);
    } else {
      PrefixWhole(ls);
    }
  }

  /** The tag list of one emitted version, appended to step by step as in
      lines 123-141. */
  method EntryTags(ctx: TagContext, v: Version) returns (tags: seq<string>)
    ensures tags == TagsFor(ctx, v)
  {
    tags := [ToString(v)];
    if MajorEntry(ctx, v) == v {
      tags := tags + [MajorKey(v)];
    }
    if BranchEntry(ctx, v) == v {
      tags := tags + [BranchKey(v)];
    }
    if v == ctx.lastVersion {
      tags := tags + ["latest"];
    }
    if ctx.stable.Some? && v == ctx.stable.value {
      tags := tags + ["stable"];
    }
  }

  /** The versions whose checksum the tagging loop over ls may ask for. */
  function Needed(ctx: TagContext, ls: seq<Version>): set<Version>
  {
    (set v | v in ls) + (if ctx.stable.Some? then {ctx.stable.value} else {})
  }

  /** The checksums a cache holding m delivers for the versions in needed:
      getChecksum's answer wherever it does not return an error. */
  function CacheSums(m: map<string, string>, answers: map<string, ChecksumCache.Answer>, writable: bool,
                     needed: set<Version>): map<Version, string>
  {
    map w | w in needed && ChecksumCache.Lookup(m, answers, writable, w).Some?
          :: ChecksumCache.Lookup(m, answers, writable, w).value
  }

  /** The loop over one more emitted version is one more step. */
  lemma ManifestNext(ctx: TagContext, sums: map<Version, string>, ls: seq<Version>, i: nat)
    requires i < |ls|
    ensures Manifest(ctx, sums, ls[..i + 1]) == ManifestStep(ctx, sums, Manifest(ctx, sums, ls[..i]), ls[i])
  {
    assert ls[..i + 1][..i] == ls[..i];
  }

  /** Every emitted version, and the stable one, may be looked up. */
  lemma NeededHas(ctx: TagContext, ls: seq<Version>, i: nat)
    requires i < |ls|
    ensures ls[i] in Needed(ctx, ls)
    ensures ctx.stable.Some? ==> ctx.stable.value in Needed(ctx, ls)
  {
  }

  /** v's entry in CacheSums is getChecksum's answer for v. */
  lemma CacheSumsAt(m: map<string, string>, answers: map<string, ChecksumCache.Answer>, writable: bool,
                    needed: set<Version>, v: Version)
    requires v in needed
    ensures v in CacheSums(m, answers, writable, needed) <==> ChecksumCache.Lookup(m, answers, writable, v).Some?
    ensures v in CacheSums(m, answers, writable, needed) ==>
              CacheSums(m, answers, writable, needed)[v] == ChecksumCache.Lookup(m, answers, writable, v).value
  {
  }

  /** The cache over disk and mirror answers every lookup as one holding m0
      over a disk that is writable exactly when w0. */
  ghost predicate AnswersAs(checks: ChecksumCache.Checksums, disk: ChecksumCache.Disk, mirror: ChecksumCache.Mirror,
                      m0: map<string, string>, w0: bool)
    reads checks, disk, mirror
  {
    && disk.writable == w0
    && forall w {:trigger ChecksumCache.Lookup(checks.Effective(disk), mirror.answers, disk.writable, w)} ::
         ChecksumCache.Lookup(checks.Effective(disk), mirror.answers, disk.writable, w)
         == ChecksumCache.Lookup(m0, mirror.answers, w0, w)
  }

  /** checks.getChecksum(v) as the tagging loop sees it: the checksum the
      cache would have given at the start, and no change to later answers. */
  method CachedChecksum(checks: ChecksumCache.Checksums, disk: ChecksumCache.Disk, mirror: ChecksumCache.Mirror,
                        v: Version, ghost m0: map<string, string>, ghost w0: bool, ghost needed: set<Version>)
    returns (reply: ChecksumCache.Reply)
    requires AnswersAs(checks, disk, mirror, m0, w0) && v in needed
    modifies checks, disk, mirror
    ensures reply.ok <==> v in CacheSums(m0, mirror.answers, w0, needed)
    ensures reply.ok ==> reply.checksum == CacheSums(m0, mirror.answers, w0, needed)[v]
    ensures reply.ok ==> AnswersAs(checks, disk, mirror, m0, w0)
  {
    CacheSumsAt(m0, mirror.answers, w0, needed, v);
    reply := checks.GetChecksum(v, disk, mirror);
  }

  /** One iteration of the tagging loop (lines 101-142) for emitted version
      v: the injected stable entry while stable is not found and v is below
      it, then v's own entry; a lookup error is the panic. */
  method TagOne(ctx: TagContext, versions: map<string, BuildInfoVersion>, stableFound: bool, v: Version,
                checks: ChecksumCache.Checksums, disk: ChecksumCache.Disk, mirror: ChecksumCache.Mirror,
                ghost m0: map<string, string>, ghost w0: bool, ghost needed: set<Version>)
    returns (st: ManifestState)
    requires AnswersAs(checks, disk, mirror, m0, w0)
    requires v in needed && (ctx.stable.Some? ==> ctx.stable.value in needed)
    modifies checks, disk, mirror
    ensures st == ManifestStep(ctx, CacheSums(m0, mirror.answers, w0, needed), Building(versions, stableFound), v)
    ensures st.Building? ==> AnswersAs(checks, disk, mirror, m0, w0)
  {
    var injecting := !stableFound && ctx.stable.Some? && Less(v, ctx.stable.value);
    var m := versions;
    if injecting {
      var reply := CachedChecksum(checks, disk, mirror, ctx.stable.value, m0, w0, needed);
      if !reply.ok {
        return Panicked;
      }
      m := m[ToString(ctx.stable.value) := BuildInfoVersion(reply.checksum, StableTags(ctx.stable.value))];
    }
    var reply := CachedChecksum(checks, disk, mirror, v, m0, w0, needed);
    if !reply.ok {
      return Panicked;
    }
    var tags := EntryTags(ctx, v);
    st := Building(m[ToString(v) := BuildInfoVersion(reply.checksum, tags)],
                   stableFound || (ctx.stable.Some? && v == ctx.stable.value));
  }

  /** The tagging loop (lines 95-143), looking up every checksum through the
      cache checks: the manifest, or None when a lookup returned an error and
      logrus.Panicln ended the check. Since a successful lookup never changes
      what later lookups answer, the loop builds the manifest the
      specification gives for the cache's answers as they stood at the start. */
  method BuildManifest(ctx: TagContext, lastVersions: seq<Version>, checks: ChecksumCache.Checksums,
                       disk: ChecksumCache.Disk, mirror: ChecksumCache.Mirror)
    returns (r: Option<BuildInfo>)
    modifies checks, disk, mirror
    ensures var sums := CacheSums(old(checks.Effective(disk)), mirror.answers, old(disk.writable), Needed(ctx, lastVersions));
            && (r.None? <==> Manifest(ctx, sums, lastVersions).Panicked?)
            && (r.Some? ==> r.value.versions == Manifest(ctx, sums, lastVersions).versions)
  {
    ghost var m0 := checks.Effective(disk);
    ghost var w0 := disk.writable;
    ghost var needed := Needed(ctx, lastVersions);
    ghost var sums := CacheSums(m0, mirror.answers, w0, needed);
    var versions: map<string, BuildInfoVersion> := map[];
    var stableFound := false;
    var i := 0;
    while i < |lastVersions|
      invariant 0 <= i <= |lastVersions|
      invariant Manifest(ctx, sums, lastVersions[..i]) == Building(versions, stableFound)
      invariant AnswersAs(checks, disk, mirror, m0, w0)
    {
      var v := lastVersions[i];
      ManifestNext(ctx, sums, lastVersions, i);
      NeededHas(ctx, lastVersions, i);
      var st := TagOne(ctx, versions, stableFound, v, checks, disk, mirror, m0, w0, needed);
      if st.Panicked? {
        PanicPersists(ctx, sums, lastVersions, i + 1);
        return None;
      }
      versions, stableFound := st.versions, st.stableFound;
      i := i + 1;
    }
    PrefixWhole(lastVersions);
    r := Some(BuildInfo(versions));
  }

  // ---------------------------------------------------------------------------
  // What the manifest holds
  // ---------------------------------------------------------------------------

  /** The stable version is among the emitted versions. */
  predicate StableIn(ctx: TagContext, ls: seq<Version>)
  {
    ctx.stable.Some? && ctx.stable.value in ls
  }

  /** Some emitted version below the stable one comes before every
      occurrence of the stable one, so the loop writes the stable entry. */
  predicate Injects(ctx: TagContext, ls: seq<Version>)
  {
    ctx.stable.Some?
    && exists i :: 0 <= i < |ls| && Less(ls[i], ctx.stable.value) && ctx.stable.value !in ls[..i]
  }

  /** Every checksum the loop asks for can be delivered. */
  predicate SumsAvailable(ctx: TagContext, sums: map<Version, string>, ls: seq<Version>)
  {
    && (forall v :: v in ls ==> v in sums)
    && (Injects(ctx, ls) ==> ctx.stable.value in sums)
  }

  /** The keys of the finished manifest. */
  function ManifestKeys(ctx: TagContext, ls: seq<Version>): set<string>
  {
    (set v | v in ls :: ToString(v))
    + (if Injects(ctx, ls) then {ToString(ctx.stable.value)} else {})
  }

  /** The loop's outcome after emitted versions ls, stated without the loop:
      it panics exactly when a checksum is missing; otherwise stableFound says
      whether stable was emitted, the keys are the emitted versions plus the
      injected stable version, every emitted version carries its checksum and
      TagsFor, and an injected stable version that is not emitted carries
      [stable, "stable"]. */
  predicate Describes(ctx: TagContext, sums: map<Version, string>, ls: seq<Version>, st: ManifestState)
  {
    && (st.Building? <==> SumsAvailable(ctx, sums, ls))
    && (st.Building? ==>
          && (st.stableFound <==> StableIn(ctx, ls))
          && st.versions.Keys == ManifestKeys(ctx, ls)
          && EntriesDescribed(ctx, sums, ls, st.versions)
          && InjectedDescribed(ctx, sums, ls, st.versions))
  }

  /** Every emitted version carries its checksum and TagsFor. */
  predicate EntriesDescribed(ctx: TagContext, sums: map<Version, string>, ls: seq<Version>,
                             m: map<string, BuildInfoVersion>)
  {
    forall v :: v in ls ==>
      v in sums && ToString(v) in m && m[ToString(v)] == BuildInfoVersion(sums[v], TagsFor(ctx, v))
  }

  /** An injected stable version that is not emitted carries [stable, "stable"]. */
  predicate InjectedDescribed(ctx: TagContext, sums: map<Version, string>, ls: seq<Version>,
                              m: map<string, BuildInfoVersion>)
  {
    Injects(ctx, ls) && !StableIn(ctx, ls) ==>
      && ctx.stable.value in sums
      && ToString(ctx.stable.value) in m
      && m[ToString(ctx.stable.value)] == BuildInfoVersion(sums[ctx.stable.value], StableTags(ctx.stable.value))
  }

  lemma InjectsStep(ctx: TagContext, ls: seq<Version>, v: Version)
    ensures Injects(ctx, ls + [v]) <==>
              Injects(ctx, ls) || (ctx.stable.Some? && ctx.stable.value !in ls && Less(v, ctx.stable.value))
  {
    var ws := ls + [v];
    assert ws[..|ls|] == ls;
    if ctx.stable.Some? {
      var s := ctx.stable.value;
      if Injects(ctx, ws) {
        var i :| 0 <= i < |ws| && Less(ws[i], s) && s !in ws[..i];
        if i < |ls| {
          assert ws[..i] == ls[..i];
        }
      }
      if Injects(ctx, ls) {
        var i :| 0 <= i < |ls| && Less(ls[i], s) && s !in ls[..i];
        assert ws[..i] == ls[..i];
      }
    }
  }

  /** The emitted version strings grow by one per emitted version. */
  lemma RenderedStep(ls: seq<Version>, v: Version)
    ensures (set x | x in ls + [v] :: ToString(x)) == (set x | x in ls :: ToString(x)) + {ToString(v)}
  {
    var ws := ls + [v];
    assert forall x :: x in ws <==> x in ls || x == v;
  }

  /** The manifest's keys after one more emitted version: its string, and
      the stable version's when it is injected now. */
  lemma ManifestKeysStep(ctx: TagContext, ls: seq<Version>, v: Version)
    ensures ManifestKeys(ctx, ls + [v])
            == ManifestKeys(ctx, ls) + {ToString(v)}
               + (if ctx.stable.Some? && ctx.stable.value !in ls && Less(v, ctx.stable.value)
                  then {ToString(ctx.stable.value)} else {})
  {
    InjectsStep(ctx, ls, v);
    RenderedStep(ls, v);
  }

  lemma StableInStep(ctx: TagContext, ls: seq<Version>, v: Version)
    ensures StableIn(ctx, ls + [v]) <==> StableIn(ctx, ls) || ctx.stable == Some(v)
  {
    assert forall x :: x in ls + [v] <==> x in ls || x == v;
  }

  /** Whether the step for v writes the injected stable entry. */
  predicate InjectingAt(ctx: TagContext, st: ManifestState, v: Version)
    requires st.Building?
  {
    !st.stableFound && ctx.stable.Some? && Less(v, ctx.stable.value)
  }

  /** The step panics exactly when it makes a checksum unavailable. */
  lemma StepBuilding(ctx: TagContext, sums: map<Version, string>, ls: seq<Version>, st: ManifestState, v: Version)
    requires Describes(ctx, sums, ls, st)
    ensures ManifestStep(ctx, sums, st, v).Building? <==> SumsAvailable(ctx, sums, ls + [v])
  {
    InjectsStep(ctx, ls, v);
    assert forall x :: x in ls + [v] <==> x in ls || x == v;
  }

  /** The map a non-panicking step leaves. */
  lemma StepMap(ctx: TagContext, sums: map<Version, string>, st: ManifestState, v: Version)
    requires st.Building? && ManifestStep(ctx, sums, st, v).Building?
    ensures var m := ManifestStep(ctx, sums, st, v).versions;
            && m.Keys == st.versions.Keys + {ToString(v)}
                         + (if InjectingAt(ctx, st, v) then {ToString(ctx.stable.value)} else {})
            && m[ToString(v)] == BuildInfoVersion(sums[v], TagsFor(ctx, v))
            && (InjectingAt(ctx, st, v) && ctx.stable.value != v ==>
                  m[ToString(ctx.stable.value)]
                  == BuildInfoVersion(sums[ctx.stable.value], StableTags(ctx.stable.value)))
            && (forall key ::
                  (key in st.versions && key != ToString(v)
                   && (InjectingAt(ctx, st, v) ==> key != ToString(ctx.stable.value)))
                  ==> m[key] == st.versions[key])
  {
    if InjectingAt(ctx, st, v) && ctx.stable.value != v {
      ToStringInjective(ctx.stable.value, v);
    }
  }

  lemma StepEntries(ctx: TagContext, sums: map<Version, string>, ls: seq<Version>, st: ManifestState, v: Version)
    requires Describes(ctx, sums, ls, st) && st.Building? && ManifestStep(ctx, sums, st, v).Building?
    ensures EntriesDescribed(ctx, sums, ls + [v], ManifestStep(ctx, sums, st, v).versions)
  {
    var m := ManifestStep(ctx, sums, st, v).versions;
    StepMap(ctx, sums, st, v);
    forall x | x in ls + [v]
      ensures x in sums && ToString(x) in m && m[ToString(x)] == BuildInfoVersion(sums[x], TagsFor(ctx, x))
    {
      if x != v {
        assert x in ls;
        ToStringInjective(x, v);
        if InjectingAt(ctx, st, v) {
          ToStringInjective(x, ctx.stable.value);
        }
      }
    }
  }

  lemma StepInjected(ctx: TagContext, sums: map<Version, string>, ls: seq<Version>, st: ManifestState, v: Version)
    requires Describes(ctx, sums, ls, st) && st.Building? && ManifestStep(ctx, sums, st, v).Building?
    ensures InjectedDescribed(ctx, sums, ls + [v], ManifestStep(ctx, sums, st, v).versions)
  {
    var ws := ls + [v];
    var m := ManifestStep(ctx, sums, st, v).versions;
    if Injects(ctx, ws) && !StableIn(ctx, ws) {
      var s := ctx.stable.value;
      InjectsStep(ctx, ls, v);
      assert s != v && s !in ls;
      StepMap(ctx, sums, st, v);
      if !InjectingAt(ctx, st, v) {
        assert Injects(ctx, ls);
        ToStringInjective(s, v);
      }
    }
  }

  lemma ManifestStepDescribes(ctx: TagContext, sums: map<Version, string>, ls: seq<Version>,
                              st: ManifestState, v: Version)
    requires Describes(ctx, sums, ls, st)
    ensures Describes(ctx, sums, ls + [v], ManifestStep(ctx, sums, st, v))
  {
    StepBuilding(ctx, sums, ls, st, v);
    if st.Building? && ManifestStep(ctx, sums, st, v).Building? {
      StepMap(ctx, sums, st, v);
      ManifestKeysStep(ctx, ls, v);
      StepEntries(ctx, sums, ls, st, v);
      StepInjected(ctx, sums, ls, st, v);
      StableInStep(ctx, ls, v);
    }
  }

  /** The tagging loop's outcome for every list of emitted versions. */
  lemma {:induction false} ManifestDescribed(ctx: TagContext, sums: map<Version, string>, ls: seq<Version>)
    ensures Describes(ctx, sums, ls, Manifest(ctx, sums, ls))
  {
    if ls != [] {
      var n := |ls| - 1;
      ManifestDescribed(ctx, sums, ls[..n]);
      assert ls == ls[..n] + [ls[n]];
      ManifestStepDescribes(ctx, sums, ls[..n], Manifest(ctx, sums, ls[..n]), ls[n]);
    }
  }

  // ---------------------------------------------------------------------------
  // The tags, in terms of the collected versions
  // ---------------------------------------------------------------------------

  /** Version-derived tags begin with a digit, unlike "latest" and "stable". */
  lemma VersionTagsStartWithDigit(v: Version)
    ensures |ToString(v)| > 0 && IsDigit(ToString(v)[0])
    ensures |MajorKey(v)| > 0 && IsDigit(MajorKey(v)[0])
    ensures |BranchKey(v)| > 0 && IsDigit(BranchKey(v)[0])
  {
    NatToStringCanonical(v.major);
  }

  /** "latest" marks exactly the last version, "stable" exactly the stable one. */
  lemma WordTags(ctx: TagContext, v: Version)
    ensures "latest" in TagsFor(ctx, v) <==> v == ctx.lastVersion
    ensures "stable" in TagsFor(ctx, v) <==> ctx.stable == Some(v)
    ensures "latest" !in StableTags(v)
  {
    VersionTagsStartWithDigit(v);
    var t := TagsFor(ctx, v);
    forall i | 0 <= i < |t| && t[i] != "latest" && t[i] != "stable"
      ensures |t[i]| > 0 && IsDigit(t[i][0])
    {
    }
  }

  /** On the output of the selection loop over sorted versions vs, an
      emitted version x is tagged with its version, its major only when it
      is that major's maximum, its release line always, "latest" only when it
      is the greatest version and "stable" only when it is the stable one. */
  lemma EmittedTags(vs: seq<Version>, lastVersions: seq<Version>, lastVersion: Version,
                    highestMajor: map<nat, Version>, highestMinor: map<string, Version>,
                    stable: Option<Version>, x: Version)
    requires Sorted(vs)
    requires SelectionFacts(vs, lastVersions, lastVersion, highestMajor, highestMinor)
    requires x in lastVersions
    ensures TagsFor(TagContext(highestMajor, highestMinor, lastVersion, stable), x)
            == TagList(x, IsMajorMax(vs, x), true, x == vs[|vs| - 1], stable == Some(x))
  {
    EmittedEntries(vs, lastVersions, lastVersion, highestMajor, highestMinor, x);
  }

  /** What the selection maps hold for an emitted version. */
  lemma EmittedEntries(vs: seq<Version>, lastVersions: seq<Version>, lastVersion: Version,
                       highestMajor: map<nat, Version>, highestMinor: map<string, Version>, x: Version)
    requires Sorted(vs)
    requires SelectionFacts(vs, lastVersions, lastVersion, highestMajor, highestMinor)
    requires x in lastVersions
    ensures x in vs
    ensures x.major in highestMajor && (highestMajor[x.major] == x) == IsMajorMax(vs, x)
    ensures BranchKey(x) in highestMinor && highestMinor[BranchKey(x)] == x
    ensures lastVersion == vs[|vs| - 1]
  {
    RunWalkMembers(vs, x);
    MajorEntryIff(vs, highestMajor, x);
    BranchEntryIs(vs, highestMinor, x);
    assert |vs| > 0;
  }

  lemma MajorEntryIff(vs: seq<Version>, highestMajor: map<nat, Version>, x: Version)
    requires MajorMaxima(vs, highestMajor) && x in vs
    ensures x.major in highestMajor
    ensures highestMajor[x.major] == x <==> IsMajorMax(vs, x)
  {
    var mm := highestMajor[x.major];
    assert IsMajorMax(vs, mm);
    if IsMajorMax(vs, x) {
      assert SameMajor(mm, x) && SameMajor(x, mm);
      assert Leq(mm, x) && Leq(x, mm);
    }
  }

  lemma BranchEntryIs(vs: seq<Version>, highestMinor: map<string, Version>, x: Version)
    requires BranchMaxima(vs, highestMinor) && IsBranchMax(vs, x)
    ensures BranchKey(x) in highestMinor && highestMinor[BranchKey(x)] == x
  {
    var bm := highestMinor[BranchKey(x)];
    BranchKeyInjective(bm, x);
    assert Leq(bm, x) && Leq(x, bm);
  }

  /** Which entry of a described manifest carries "stable". */
  lemma StableKey(ctx: TagContext, sums: map<Version, string>, ls: seq<Version>,
                  m: map<string, BuildInfoVersion>, key: string)
    requires m.Keys == ManifestKeys(ctx, ls)
    requires EntriesDescribed(ctx, sums, ls, m) && InjectedDescribed(ctx, sums, ls, m)
    requires key in m
    ensures "stable" in m[key].tags <==> ctx.stable.Some? && key == ToString(ctx.stable.value)
  {
    if x :| x in ls && key == ToString(x) {
      WordTags(ctx, x);
      if ctx.stable.Some? {
        ToStringInjective(x, ctx.stable.value);
      }
    } else {
      WordTags(ctx, ctx.stable.value);
    }
  }

  /** The stable version's entry in a described manifest. */
  lemma StableEntry(ctx: TagContext, sums: map<Version, string>, ls: seq<Version>,
                    m: map<string, BuildInfoVersion>)
    requires m.Keys == ManifestKeys(ctx, ls)
    requires EntriesDescribed(ctx, sums, ls, m) && InjectedDescribed(ctx, sums, ls, m)
    requires ctx.stable.Some?
    ensures ToString(ctx.stable.value) in m <==> StableIn(ctx, ls) || Injects(ctx, ls)
    ensures ToString(ctx.stable.value) in m ==>
              var t := m[ToString(ctx.stable.value)].tags;
              |t| > 0 && t[|t| - 1] == "stable"
  {
    var sv := ctx.stable.value;
    if ToString(sv) in m {
      if x :| x in ls && ToString(sv) == ToString(x) {
        ToStringInjective(x, sv);
      }
    }
  }

  /** "stable" is carried by one entry at most, the one keyed by the stable
      version, and that entry exists exactly when stable was emitted or
      injected; its tags then end with "stable". */
  lemma StableTagged(ctx: TagContext, sums: map<Version, string>, ls: seq<Version>)
    requires Manifest(ctx, sums, ls).Building?
    ensures var m := Manifest(ctx, sums, ls).versions;
            forall key :: key in m ==>
              ("stable" in m[key].tags <==> ctx.stable.Some? && key == ToString(ctx.stable.value))
    ensures var m := Manifest(ctx, sums, ls).versions;
            ctx.stable.Some? ==>
              (ToString(ctx.stable.value) in m <==> StableIn(ctx, ls) || Injects(ctx, ls))
    ensures var m := Manifest(ctx, sums, ls).versions;
            ctx.stable.Some? && ToString(ctx.stable.value) in m ==>
              var t := m[ToString(ctx.stable.value)].tags;
              |t| > 0 && t[|t| - 1] == "stable"
  {
    ManifestDescribed(ctx, sums, ls);
    var m := Manifest(ctx, sums, ls).versions;
    forall key | key in m
      ensures "stable" in m[key].tags <==> ctx.stable.Some? && key == ToString(ctx.stable.value)
    {
      StableKey(ctx, sums, ls, m, key);
    }
    if ctx.stable.Some? {
      StableEntry(ctx, sums, ls, m);
    }
  }

  /** On ascending emitted versions the stable entry is injected exactly when
      some emitted version is below the stable one. */
  lemma InjectsWhenBelow(ctx: TagContext, ls: seq<Version>)
    requires StrictlyAscending(ls)
    ensures Injects(ctx, ls) <==> ctx.stable.Some? && exists v :: v in ls && Less(v, ctx.stable.value)
  {
    if ctx.stable.Some? && exists v :: v in ls && Less(v, ctx.stable.value) {
      var v :| v in ls && Less(v, ctx.stable.value);
      var j :| 0 <= j < |ls| && ls[j] == v;
      if j > 0 {
        assert Less(ls[0], ls[j]);
      }
      assert ls[..0] == [];
    }
  }

  /** "latest" is carried by one entry at most: the greatest collected
      version's, and only when the walk emitted it, i.e. when the final
      release line holds more than one version or is the only version. */
  lemma LatestTagged(vs: seq<Version>, ctx: TagContext, sums: map<Version, string>)
    requires Sorted(vs)
    requires ctx.lastVersion == (if vs == [] then Zero else vs[|vs| - 1])
    requires Manifest(ctx, sums, RunWalk(vs)).Building?
    ensures var m := Manifest(ctx, sums, RunWalk(vs)).versions;
            forall key :: key in m ==>
              ("latest" in m[key].tags <==> |vs| > 0 && FinalBranchKept(vs) && key == ToString(vs[|vs| - 1]))
  {
    var ls := RunWalk(vs);
    ManifestDescribed(ctx, sums, ls);
    var m := Manifest(ctx, sums, ls).versions;
    forall key | key in m
      ensures "latest" in m[key].tags <==> |vs| > 0 && FinalBranchKept(vs) && key == ToString(vs[|vs| - 1])
    {
      if x :| x in ls && key == ToString(x) {
        WordTags(ctx, x);
        assert |vs| > 0;
        GreatestEmittedIff(vs);
        ToStringInjective(x, vs[|vs| - 1]);
      } else {
        var sv := ctx.stable.value;
        WordTags(ctx, sv);
        if |vs| > 0 {
          GreatestEmittedIff(vs);
        }
      }
    }
  }

  // ---------------------------------------------------------------------------
  // One whole check (checkVersion, lines 27-146)
  // ---------------------------------------------------------------------------

  /** checkVersion on a fetched feed: collect, sort, select, tag through a
      fresh checksum cache over disk and mirror, then hand the manifest to
      updateVersion. r is the manifest, or None when a checksum lookup
      panicked; ctx and lastVersions are the selection it was built from;
      effects and outcome are updateVersion's, absent after a panic. */
  method CheckVersion(steps: seq<AvailableVersionsStep>, disk: ChecksumCache.Disk, mirror: ChecksumCache.Mirror,
                      env: UpdateEnv)
    returns (r: Option<BuildInfo>, ctx: TagContext, lastVersions: seq<Version>,
             effects: seq<Effect>, outcome: Option<UpdateOutcome>)
    modifies disk, mirror
    ensures var vs := Sort(Collected(steps));
            && lastVersions == RunWalk(vs)
            && ctx.stable == LastStable(steps)
            && SelectionFacts(vs, lastVersions, ctx.lastVersion, ctx.highestMajor, ctx.highestMinor)
    ensures var sums := CacheSums(ChecksumCache.LoadedMap(old(disk.file)), mirror.answers, old(disk.writable),
                                  Needed(ctx, lastVersions));
            && (r.None? <==> Manifest(ctx, sums, lastVersions).Panicked?)
            && (r.Some? ==> r.value.versions == Manifest(ctx, sums, lastVersions).versions)
    ensures r.None? <==> outcome.None?
    ensures r.None? ==> effects == []
    ensures r.Some? ==> |effects| > 0 && effects[0] == Clone
    ensures r.Some? ==>
              (outcome == Some(Pushed) <==>
                 env.cloneOk && EditsSucceed(env, r.value) && env.commit == Committed && env.pushOk)
    ensures r.Some? ==>
              (outcome == Some(NothingToCommit) <==> env.cloneOk && EditsSucceed(env, r.value) && CleanTree(env))
  {
    var versions, stableVersion := CollectVersions(steps);
    versions := Sort(versions);
    var lastVersion, highestMajor, highestMinor;
    lastVersions, lastVersion, highestMajor, highestMinor := SelectLatest(versions);
    ctx := TagContext(highestMajor, highestMinor, lastVersion, stableVersion);
    var checks := new ChecksumCache.Checksums();
    r := BuildManifest(ctx, lastVersions, checks, disk, mirror);
    effects, outcome := [], None;
    if r.Some? {
      var o;
      effects, o := UpdateVersion(r.value, env);
      outcome := Some(o);
    }
  }

  // ---------------------------------------------------------------------------
  // Publishing the manifest (updateVersion, lines 148-203)
  // ---------------------------------------------------------------------------

  /** What updateVersion does to the outside world, in order. */
  datatype Effect =
    | Clone
    | WriteReadme(content: string)
    | WriteBuildinfo(info: BuildInfo)
    | Commit(message: string)
    | Push(args: seq<string>)
    | RemoveClone

  /** The result of "git add" and "git commit": success, or the combined
      output of the failing command. */
  datatype CommitResult = Committed | CommitFailed(output: string)

  /** The answers of the outside world to updateVersion's steps. readme is
      None when README.md cannot be read. */
  datatype UpdateEnv = UpdateEnv(cloneOk: bool, readme: Option<string>, readmeWriteOk: bool,
                                 buildinfoOk: bool, commit: CommitResult, pushOk: bool)

  datatype UpdateOutcome = Pushed | NothingToCommit | UpdatePanicked

  const NothingToCommitText := "nothing to commit, working tree clean"

  /** The README and buildinfo edits both succeed. */
  predicate EditsSucceed(env: UpdateEnv, info: BuildInfo)
  {
    && env.readme.Some?
    && EditReadme(env.readme.value, info).Edited?
    && env.readmeWriteOk
    && env.buildinfoOk
  }

  /** The commit failed only because the clone already holds the manifest. */
  predicate CleanTree(env: UpdateEnv)
  {
    env.commit.CommitFailed? && Contains(env.commit.output, NothingToCommitText)
  }

  /** updateVersion: clone, edit README and buildinfo, commit, push; every
      failure panics, except a commit that finds nothing to commit, which
      returns quietly before the push. The deferred removal of the clone runs
      once the clone exists, on return and on panic alike. */
  method UpdateVersion(info: BuildInfo, env: UpdateEnv) returns (effects: seq<Effect>, outcome: UpdateOutcome)
    ensures |effects| > 0 && effects[0] == Clone
    ensures env.cloneOk <==> effects[|effects| - 1] == RemoveClone
    ensures outcome == NothingToCommit <==> env.cloneOk && EditsSucceed(env, info) && CleanTree(env)
    ensures outcome == Pushed <==> env.cloneOk && EditsSucceed(env, info) && env.commit == Committed && env.pushOk
    ensures Push(PushArgs("")) in effects <==> env.cloneOk && EditsSucceed(env, info) && env.commit == Committed
    ensures env.cloneOk && env.readme.Some? && EditReadme(env.readme.value, info).Edited? ==>
              WriteReadme(EditReadme(env.readme.value, info).content) in effects
    ensures WriteBuildinfo(info) in effects <==>
              env.cloneOk && env.readme.Some? && EditReadme(env.readme.value, info).Edited? && env.readmeWriteOk
  {
    effects := [Clone];
    if !env.cloneOk {
      return [Clone], UpdatePanicked;
    }
    if env.readme.None? {
      return effects + [RemoveClone], UpdatePanicked;
    }
    var edit := EditReadme(env.readme.value, info);
    if edit.MarkersMissing? {
      return effects + [RemoveClone], UpdatePanicked;
    }
    effects := effects + [WriteReadme(edit.content)];
    if !env.readmeWriteOk {
      return effects + [RemoveClone], UpdatePanicked;
    }
    effects := effects + [WriteBuildinfo(info)];
    if !env.buildinfoOk {
      return effects + [RemoveClone], UpdatePanicked;
    }
    effects := effects + [Commit("Update to Factorio version")];
    if env.commit.CommitFailed? && Contains(env.commit.output, NothingToCommitText) {
      return effects + [RemoveClone], NothingToCommit;
    } else if env.commit.CommitFailed? {
      return effects + [RemoveClone], UpdatePanicked;
    }
    effects := effects + [Push(PushArgs(""))];
    if !env.pushOk {
      return effects + [RemoveClone], UpdatePanicked;
    }
    return effects + [RemoveClone], Pushed;
  }
}
