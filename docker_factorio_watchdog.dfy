/** The per-release-line watchdog (docker-factorio-watchdog.go): every five
    minutes it reads the updater feed, keeps one version per release line,
    drops the versions the registry already publishes, and opens an update
    branch for each remaining version it has not handled before. What it has
    handled is remembered per release line in latestVersionProceeded. */
module DockerFactorioWatchdog {
  import opened Wrappers
  import opened Strings
  import opened Semver
  import opened Selection
  import opened Feed
  import opened ChecksumCache
  import opened GitEdits

  // ---------------------------------------------------------------------------
  // Collecting the feed (lines 29-42)
  // ---------------------------------------------------------------------------

  /** What one record contributes: its To, when non-empty and parseable. */
  function ToVersion(r: AvailableVersionsStep): Option<Version>
  {
    if r.to != "" then Parse(r.to) else None
  }

  function ToVersions(steps: seq<AvailableVersionsStep>): (os: seq<Option<Version>>)
    ensures |os| == |steps| && forall i :: 0 <= i < |steps| ==> os[i] == ToVersion(steps[i])
  {
    seq(|steps|, i requires 0 <= i < |steps| => ToVersion(steps[i]))
  }

  /** The present values of os, in order. */
  function Present(os: seq<Option<Version>>): seq<Version>
  {
    if os == [] then []
    else Present(os[..|os| - 1]) + (if os[|os| - 1].Some? then [os[|os| - 1].value] else [])
  }

  /** The versions the collection loop appends, in feed order. */
  function CollectedTo(steps: seq<AvailableVersionsStep>): seq<Version>
  {
    Present(ToVersions(steps))
  }

  /** Record r names v in a non-empty To. */
  predicate Names(r: AvailableVersionsStep, v: Version)
  {
    r.to != "" && Parse(r.to) == Some(v)
  }

  lemma {:induction false} PresentMembers(os: seq<Option<Version>>, v: Version)
    ensures v in Present(os) <==> exists i :: 0 <= i < |os| && os[i] == Some(v)
  {
    if os != [] {
      var n := |os| - 1;
      PresentMembers(os[..n], v);
      assert forall i :: 0 <= i < n ==> os[..n][i] == os[i];
    }
  }

  /** A version is collected exactly when some record names it. */
  lemma CollectedToMembers(steps: seq<AvailableVersionsStep>, v: Version)
    ensures v in CollectedTo(steps) <==> exists i :: 0 <= i < |steps| && Names(steps[i], v)
  {
    var os := ToVersions(steps);
    PresentMembers(os, v);
    assert forall i :: 0 <= i < |steps| ==> (os[i] == Some(v) <==> Names(steps[i], v));
  }

  method CollectVersions(steps: seq<AvailableVersionsStep>) returns (versions: seq<Version>)
    ensures versions == CollectedTo(steps)
  {
    versions := [];
    var i := 0;
    while i < |steps|
      invariant 0 <= i <= |steps|
      invariant versions == Present(ToVersions(steps[..i]))
    {
      assert ToVersions(steps[..i + 1])[..i] == ToVersions(steps[..i]);
      var r := steps[i];
      i := i + 1;
      if r.to == "" {
        continue;
      }
      var v := Parse(r.to);
      if v.None? {
        continue;
      }
      versions := versions + [v.value];
    }
    assert steps[..|steps|] == steps;
  }

  // ---------------------------------------------------------------------------
  // Selecting one version per release line (lines 44-61)
  // ---------------------------------------------------------------------------

  /** The run walk of lines 48-61. */
  method SelectLatest(versions: seq<Version>) returns (lastVersions: seq<Version>)
    ensures lastVersions == RunWalk(versions)
  {
    var lastVersion := Zero;
    var firstRun := true;
    lastVersions := [];
    var i := 0;
    while i < |versions|
      invariant 0 <= i <= |versions|
      invariant firstRun <==> i == 0
      invariant i > 0 ==> lastVersion == versions[i - 1]
      invariant lastVersions == Walk(versions, i)
    {
      var version := versions[i];
      if firstRun {
        lastVersion := version;
        firstRun := false;
      }
      if lastVersion.major != version.major || lastVersion.minor != version.minor {
        lastVersions := lastVersions + [lastVersion];
      } else if i + 1 == |versions| {
        lastVersions := lastVersions + [version];
      }
      lastVersion := version;
      i := i + 1;
    }
  }

  // ---------------------------------------------------------------------------
  // Removing the published versions (lines 63-74)
  // ---------------------------------------------------------------------------

  /** A Go slice: the contents of its backing array and its length. */
  datatype SliceState = SliceState(arr: seq<Version>, len: nat)

  predicate WellFormed(st: SliceState)
  {
    st.len <= |st.arr|
  }

  /** append(s[:i], s[i+1:]...) on a slice of length len over arr: the
      elements after i move one place left within the same array, and the
      array's slot len - 1 keeps its old value. */
  function SpliceAt(arr: seq<Version>, len: nat, i: nat): (r: seq<Version>)
    requires i < len <= |arr|
    ensures |r| == |arr|
  {
    arr[..i] + arr[i + 1..len] + arr[len - 1..]
  }

  /** The slice after the splice is the old one without slot i; from
      len - 1 on the array is unchanged. */
  lemma SpliceAtParts(arr: seq<Version>, len: nat, i: nat)
    requires i < len <= |arr|
    ensures SpliceAt(arr, len, i)[..len - 1] == arr[..i] + arr[i + 1..len]
    ensures forall j :: len - 1 <= j < |arr| ==> SpliceAt(arr, len, i)[j] == arr[j]
  {
    var r := SpliceAt(arr, len, i);
    assert |arr[..i] + arr[i + 1..len]| == len - 1;
    assert r[..len - 1] == arr[..i] + arr[i + 1..len];
  }

  /** Past the removed slot, the spliced slice holds the element one place
      further on; from len - 1 the array is unchanged. */
  lemma SpliceAtShifts(arr: seq<Version>, len: nat, i: nat, j: nat)
    requires i < len <= |arr| && i <= j < |arr|
    ensures SpliceAt(arr, len, i)[j] == if j < len - 1 then arr[j + 1] else arr[j]
  {
    SpliceAtParts(arr, len, i);
    if j < len - 1 {
      assert SpliceAt(arr, len, i)[..len - 1][j] == arr[j + 1];
    }
  }

  /** Iteration i of the range loop of lines 70-74. The range reads the
      backing array at i even after earlier removals shifted it, and s[i+1:]
      beyond the current length panics (None). */
  function RemovalStep(st: SliceState, name: string, i: nat): (r: Option<SliceState>)
    requires WellFormed(st) && i < |st.arr|
    ensures r.Some? ==> WellFormed(r.value) && |r.value.arr| == |st.arr|
  {
    if ToString(st.arr[i]) != name then Some(st)
    else if i + 1 > st.len then None
    else Some(SliceState(SpliceAt(st.arr, st.len, i), st.len - 1))
  }

  /** The first k iterations of that loop. */
  function RemovalRun(st0: SliceState, name: string, k: nat): (r: Option<SliceState>)
    requires WellFormed(st0) && k <= st0.len
    ensures r.Some? ==> WellFormed(r.value) && |r.value.arr| == |st0.arr|
  {
    if k == 0 then Some(st0)
    else
      match RemovalRun(st0, name, k - 1)
      case None => None
      case Some(st) => RemovalStep(st, name, k - 1)
  }

  lemma {:induction false} RemovalPanicPersists(st0: SliceState, name: string, i: nat, k: nat)
    requires WellFormed(st0) && i <= k <= st0.len && RemovalRun(st0, name, i).None?
    ensures RemovalRun(st0, name, k).None?
    decreases k - i
  {
    if i < k {
      RemovalPanicPersists(st0, name, i + 1, k);
    }
  }

  lemma RemovalRunNext(st0: SliceState, name: string, i: nat, st: SliceState)
    requires WellFormed(st0) && i < st0.len && RemovalRun(st0, name, i) == Some(st)
    ensures RemovalRun(st0, name, i + 1) == RemovalStep(st, name, i)
  {
  }

  lemma RemovalStepKeeps(st: SliceState, name: string, i: nat)
    requires WellFormed(st) && i < |st.arr| && ToString(st.arr[i]) != name
    ensures RemovalStep(st, name, i) == Some(st)
  {
  }

  lemma RemovalStepSplices(st: SliceState, name: string, i: nat)
    requires WellFormed(st) && i < st.len && ToString(st.arr[i]) == name
    ensures RemovalStep(st, name, i) == Some(SliceState(SpliceAt(st.arr, st.len, i), st.len - 1))
  {
  }

  /** append(lastVersions[:i], lastVersions[i+1:]...), moving the tail of
      the slice one place left in place. */
  method Splice(a: array<Version>, len: nat, i: nat)
    requires i < len <= a.Length
    modifies a
    ensures a[..] == SpliceAt(old(a[..]), len, i)
  {
    var j := i;
    while j + 1 < len
      invariant i <= j < len
      invariant forall t :: 0 <= t < i ==> a[t] == old(a[t])
      invariant forall t :: i <= t < j ==> a[t] == old(a[t + 1])
      invariant forall t :: j <= t < a.Length ==> a[t] == old(a[t])
    {
      a[j] := a[j + 1];
      j := j + 1;
    }
    assert forall t :: 0 <= t < a.Length ==> a[t] == SpliceAt(old(a[..]), len, i)[t];
  }

  /** The range loop of lines 70-74 for one tag name, on the slice of length
      len over a. It reports whether slicing panicked. */
  method RemoveTagged(a: array<Version>, len: nat, name: string) returns (len': nat, panicked: bool)
    requires len <= a.Length
    modifies a
    ensures var r := RemovalRun(SliceState(old(a[..]), len), name, len);
            && (panicked <==> r.None?)
            && (r.Some? ==> a[..] == r.value.arr && len' == r.value.len)
  {
    ghost var st0 := SliceState(a[..], len);
    ghost var st := st0;
    len' := len;
    var i := 0;
    while i < len
      invariant 0 <= i <= len && a.Length == |st0.arr|
      invariant RemovalRun(st0, name, i) == Some(st)
      invariant st.arr == a[..] && st.len == len'
    {
      var version := a[i];
      RemovalRunNext(st0, name, i, st);
      if ToString(version) == name {
        if i + 1 > len' {
          RemovalPanicPersists(st0, name, i + 1, len);
          return len', true;
        }
        RemovalStepSplices(st, name, i);
        Splice(a, len', i);
        len' := len' - 1;
        st := SliceState(SpliceAt(st.arr, st.len, i), st.len - 1);
      } else {
        RemovalStepKeeps(st, name, i);
      }
      i := i + 1;
    }
    panicked := false;
  }

  /** s without the versions rendered as name, in order. */
  function Without(s: seq<Version>, name: string): seq<Version>
  {
    if s == [] then []
    else Without(s[..|s| - 1], name) + (if ToString(s[|s| - 1]) == name then [] else [s[|s| - 1]])
  }

  /** No two versions of s render alike. */
  predicate DistinctNames(s: seq<Version>)
  {
    forall i, j :: 0 <= i < j < |s| ==> ToString(s[i]) != ToString(s[j])
  }

  lemma {:induction false} WithoutConcat(a: seq<Version>, b: seq<Version>, name: string)
    ensures Without(a + b, name) == Without(a, name) + Without(b, name)
  {
    if b == [] {
      assert a + b == a;
    } else {
      var n := |b| - 1;
      WithoutConcat(a, b[..n], name);
      assert (a + b)[..|a + b| - 1] == a + b[..n];
    }
  }

  lemma {:induction false} WithoutUnnamed(s: seq<Version>, name: string)
    requires forall i :: 0 <= i < |s| ==> ToString(s[i]) != name
    ensures Without(s, name) == s
  {
    if s != [] {
      var n := |s| - 1;
      var front := s[..n];
      assert forall i :: 0 <= i < n ==> front[i] == s[i];
      WithoutUnnamed(front, name);
      PrefixStep(s, n);
      PrefixWhole(s);
    }
  }

  lemma {:induction false} WithoutMembers(s: seq<Version>, name: string, x: Version)
    ensures x in Without(s, name) <==> x in s && ToString(x) != name
  {
    if s != [] {
      var n := |s| - 1;
      WithoutMembers(s[..n], name, x);
      assert s == s[..n] + [s[n]];
    }
  }

  lemma {:induction false} WithoutDistinct(s: seq<Version>, name: string)
    requires DistinctNames(s)
    ensures DistinctNames(Without(s, name))
  {
    if s != [] {
      var n := |s| - 1;
      assert DistinctNames(s[..n]);
      WithoutDistinct(s[..n], name);
      var w := Without(s[..n], name);
      forall y | y in w
        ensures ToString(y) != ToString(s[n])
      {
        WithoutMembers(s[..n], name, y);
        var i :| 0 <= i < n && s[..n][i] == y;
      }
    }
  }

  lemma {:induction false} RunUnchanged(st0: SliceState, name: string, k0: nat, k: nat, st: SliceState)
    requires WellFormed(st0) && k0 <= k <= st0.len && |st.arr| == |st0.arr|
    requires RemovalRun(st0, name, k0) == Some(st)
    requires forall i :: k0 <= i < k ==> ToString(st.arr[i]) != name
    ensures RemovalRun(st0, name, k) == Some(st)
    decreases k
  {
    if k > k0 {
      var j := k - 1;
      assert ToString(st.arr[j]) != name;
      RunUnchanged(st0, name, k0, j, st);
      RemovalRunNext(st0, name, j, st);
      RemovalStepKeeps(st, name, j);
    }
  }

  lemma WithoutSingle(a: seq<Version>, x: Version, b: seq<Version>, name: string)
    requires ToString(x) == name
    requires forall i :: 0 <= i < |a| ==> ToString(a[i]) != name
    requires forall i :: 0 <= i < |b| ==> ToString(b[i]) != name
    ensures Without(a + [x] + b, name) == a + b
  {
    assert Without([x], name) == [] by {
      assert [x][..0] == [];
    }
    WithoutConcat(a, [x], name);
    WithoutUnnamed(a, name);
    assert Without(a + [x], name) == a;
    WithoutConcat(a + [x], b, name);
    WithoutUnnamed(b, name);
  }

  /** With a single version named name, at m, the loop removes exactly that
      one and does not panic. */
  lemma RemovalSingle(arr: seq<Version>, n: nat, name: string, m: nat)
    requires m < n <= |arr| && ToString(arr[m]) == name
    requires forall i :: 0 <= i < n && i != m ==> ToString(arr[i]) != name
    ensures RemovalRun(SliceState(arr, n), name, n) == Some(SliceState(SpliceAt(arr, n, m), n - 1))
  {
    var st0 := SliceState(arr, n);
    RunUnchanged(st0, name, 0, m, st0);
    var st1 := SliceState(SpliceAt(arr, n, m), n - 1);
    assert RemovalRun(st0, name, m + 1) == Some(st1);
    forall i | m + 1 <= i < n
      ensures ToString(st1.arr[i]) != name
    {
      SpliceAtShifts(arr, n, m, i);
    }
    RunUnchanged(st0, name, m + 1, n, st1);
  }

  lemma SpliceIsWithout(arr: seq<Version>, n: nat, name: string, m: nat)
    requires m < n <= |arr| && ToString(arr[m]) == name
    requires forall i :: 0 <= i < n && i != m ==> ToString(arr[i]) != name
    ensures SpliceAt(arr, n, m)[..n - 1] == Without(arr[..n], name)
  {
    var a, b := arr[..m], arr[m + 1..n];
    SplitAround(arr, m, n);
    forall i | 0 <= i < |a|
      ensures ToString(a[i]) != name
    {
      assert a[i] == arr[i];
    }
    forall i | 0 <= i < |b|
      ensures ToString(b[i]) != name
    {
      assert b[i] == arr[m + 1 + i];
    }
    WithoutSingle(a, arr[m], b, name);
    SpliceAtParts(arr, n, m);
  }

  lemma DistinctSingle(arr: seq<Version>, n: nat, name: string, m: nat)
    requires m < n <= |arr| && DistinctNames(arr[..n]) && ToString(arr[m]) == name
    ensures forall i :: 0 <= i < n && i != m ==> ToString(arr[i]) != name
  {
    var s := arr[..n];
    forall i | 0 <= i < n && i != m
      ensures ToString(arr[i]) != name
    {
      assert s[i] == arr[i] && s[m] == arr[m];
    }
  }

  /** On a slice whose versions render distinctly, the loop of lines 70-74
      does not panic and leaves the slice without the version named name. */
  lemma RemovalDistinct(arr: seq<Version>, n: nat, name: string)
    requires n <= |arr| && DistinctNames(arr[..n])
    ensures var r := RemovalRun(SliceState(arr, n), name, n);
            r.Some? && r.value.arr[..r.value.len] == Without(arr[..n], name)
  {
    if m :| 0 <= m < n && ToString(arr[m]) == name {
      DistinctSingle(arr, n, name, m);
      RemovalSingle(arr, n, name, m);
      SpliceIsWithout(arr, n, name, m);
    } else {
      RunUnchanged(SliceState(arr, n), name, 0, n, SliceState(arr, n));
      assert forall i :: 0 <= i < n ==> arr[..n][i] == arr[i];
      WithoutUnnamed(arr[..n], name);
    }
  }

  // ---------------------------------------------------------------------------
  // Reconciling with the registry's tags (lines 63-83)
  // ---------------------------------------------------------------------------

  /** A registry tag with its name parsed as semver.Make parses it. */
  datatype ParsedTag = ParsedTag(name: string, version: Option<Version>)

  function ParseTags(tags: seq<ImageTag>): (ps: seq<ParsedTag>)
    ensures |ps| == |tags|
    ensures forall i :: 0 <= i < |tags| ==> ps[i] == ParsedTag(tags[i].name, Parse(tags[i].name))
  {
    seq(|tags|, i requires 0 <= i < |tags| => ParsedTag(tags[i].name, Parse(tags[i].name)))
  }

  /** Lines 76-82: the memo forgets the release line of a published version
      when it holds exactly that version. */
  function Forget(memo: map<string, string>, tv: Version): map<string, string>
  {
    var key := BranchKey(tv);
    if key in memo && memo[key] == ToString(tv) then memo - {key} else memo
  }

  /** The slice and the memo after the tag loop, or the memo left by a
      slicing panic. */
  datatype Reconciled = Reconciled(slice: SliceState, memo: map<string, string>) | Aborted(memo: map<string, string>)

  /** The tag loop over the tags ps. */
  function Reconcile(st0: SliceState, memo0: map<string, string>, ps: seq<ParsedTag>): (r: Reconciled)
    requires WellFormed(st0)
    ensures r.Reconciled? ==> WellFormed(r.slice) && |r.slice.arr| == |st0.arr|
  {
    if ps == [] then Reconciled(st0, memo0)
    else
      var prev := Reconcile(st0, memo0, ps[..|ps| - 1]);
      var t := ps[|ps| - 1];
      if prev.Aborted? || t.version.None? then prev
      else
        match RemovalRun(prev.slice, t.name, prev.slice.len)
        case None => Aborted(prev.memo)
        case Some(st) => Reconciled(st, Forget(prev.memo, t.version.value))
  }

  lemma {:induction false} AbortPersists(st0: SliceState, memo0: map<string, string>, ps: seq<ParsedTag>, k: nat)
    requires WellFormed(st0) && k <= |ps| && Reconcile(st0, memo0, ps[..k]).Aborted?
    ensures Reconcile(st0, memo0, ps) == Reconcile(st0, memo0, ps[..k])
    decreases |ps| - k
  {
    if k < |ps| {
      assert ps[..k + 1][..k] == ps[..k];
      AbortPersists(st0, memo0, ps, k + 1);
    } else {
      assert ps[..k] == ps;
    }
  }

  /** s without every version named by a parseable tag of ps. */
  function WithoutAll(s: seq<Version>, ps: seq<ParsedTag>): seq<Version>
  {
    if ps == [] then s
    else
      var prev := WithoutAll(s, ps[..|ps| - 1]);
      if ps[|ps| - 1].version.Some? then Without(prev, ps[|ps| - 1].name) else prev
  }

  lemma {:induction false} WithoutAllMembers(s: seq<Version>, ps: seq<ParsedTag>, x: Version)
    ensures x in WithoutAll(s, ps) <==>
              x in s && forall i :: 0 <= i < |ps| && ps[i].version.Some? ==> ps[i].name != ToString(x)
  {
    if ps != [] {
      var n := |ps| - 1;
      WithoutAllMembers(s, ps[..n], x);
      WithoutMembers(WithoutAll(s, ps[..n]), ps[n].name, x);
      assert forall i :: 0 <= i < n ==> ps[..n][i] == ps[i];
    }
  }

  lemma {:induction false} WithoutAllDistinct(s: seq<Version>, ps: seq<ParsedTag>)
    requires DistinctNames(s)
    ensures DistinctNames(WithoutAll(s, ps))
  {
    if ps != [] {
      var n := |ps| - 1;
      WithoutAllDistinct(s, ps[..n]);
      WithoutDistinct(WithoutAll(s, ps[..n]), ps[n].name);
    }
  }

  /** On distinct versions the tag loop never panics and removes exactly the
      versions some parseable tag names. */
  lemma {:induction false} ReconcileDistinct(arr: seq<Version>, n: nat, memo0: map<string, string>, ps: seq<ParsedTag>)
    requires n <= |arr| && DistinctNames(arr[..n])
    ensures var r := Reconcile(SliceState(arr, n), memo0, ps);
            r.Reconciled? && r.slice.arr[..r.slice.len] == WithoutAll(arr[..n], ps)
  {
    if ps != [] {
      var k := |ps| - 1;
      ReconcileDistinct(arr, n, memo0, ps[..k]);
      var prev := Reconcile(SliceState(arr, n), memo0, ps[..k]);
      if ps[k].version.Some? {
        WithoutAllDistinct(arr[..n], ps[..k]);
        RemovalDistinct(prev.slice.arr, prev.slice.len, ps[k].name);
      }
    }
  }

  /** A memo entry is released by ps when some parseable tag's version is on
      the entry's release line and is the entry's version. */
  predicate Released(key: string, val: string, ps: seq<ParsedTag>)
  {
    exists i :: 0 <= i < |ps| && ps[i].version.Some?
                && BranchKey(ps[i].version.value) == key && ToString(ps[i].version.value) == val
  }

  /** memo0 without its released entries. */
  function Kept(memo0: map<string, string>, ps: seq<ParsedTag>): map<string, string>
  {
    map k | k in memo0 && !Released(k, memo0[k], ps) :: memo0[k]
  }

  lemma ReleasedStep(key: string, val: string, ps: seq<ParsedTag>, t: ParsedTag)
    ensures Released(key, val, ps + [t]) <==>
              Released(key, val, ps)
              || (t.version.Some? && BranchKey(t.version.value) == key && ToString(t.version.value) == val)
  {
    var ws := ps + [t];
    if Released(key, val, ps) {
      var i :| 0 <= i < |ps| && ps[i].version.Some?
               && BranchKey(ps[i].version.value) == key && ToString(ps[i].version.value) == val;
      assert ws[i] == ps[i];
    }
    if t.version.Some? && BranchKey(t.version.value) == key && ToString(t.version.value) == val {
      assert ws[|ps|] == t;
    }
  }

  lemma ForgetKept(memo0: map<string, string>, ps: seq<ParsedTag>, tv: Version, name: string)
    ensures Forget(Kept(memo0, ps), tv) == Kept(memo0, ps + [ParsedTag(name, Some(tv))])
  {
    var t := ParsedTag(name, Some(tv));
    forall k | k in memo0
      ensures Released(k, memo0[k], ps + [t]) <==>
                Released(k, memo0[k], ps) || (BranchKey(tv) == k && ToString(tv) == memo0[k])
    {
      ReleasedStep(k, memo0[k], ps, t);
    }
  }

  lemma KeptUnparsed(memo0: map<string, string>, ps: seq<ParsedTag>, name: string)
    ensures Kept(memo0, ps) == Kept(memo0, ps + [ParsedTag(name, None)])
  {
    forall k | k in memo0
      ensures Released(k, memo0[k], ps + [ParsedTag(name, None)]) <==> Released(k, memo0[k], ps)
    {
      ReleasedStep(k, memo0[k], ps, ParsedTag(name, None));
    }
  }

  /** After a tag loop that did not panic, the memo is the old memo without
      the entries that hold a version the registry publishes; every other
      entry is unchanged, whatever the order of the tags. */
  lemma {:induction false} ReconcileMemo(st0: SliceState, memo0: map<string, string>, ps: seq<ParsedTag>)
    requires WellFormed(st0) && Reconcile(st0, memo0, ps).Reconciled?
    ensures Reconcile(st0, memo0, ps).memo == Kept(memo0, ps)
  {
    if ps == [] {
      assert Kept(memo0, ps) == memo0;
    } else {
      var k := |ps| - 1;
      ReconcileMemo(st0, memo0, ps[..k]);
      assert ps == ps[..k] + [ps[k]];
      if ps[k].version.Some? {
        ForgetKept(memo0, ps[..k], ps[k].version.value, ps[k].name);
      } else {
        KeptUnparsed(memo0, ps[..k], ps[k].name);
      }
    }
  }

  // ---------------------------------------------------------------------------
  // Updating one version (lines 104-152)
  // ---------------------------------------------------------------------------

  /** The steps of updateVersion that end in logrus.Panic on error, in order;
      createPullRequest panics itself when GitHub refuses the pull request. */
  datatype Stage =
    | CloneStage | CheckoutStage | ChecksumStage | DockerfileStage | ReadmeStage | CommitStage | PushStage
    | PullRequestStage

  function StageIndex(s: Stage): nat
  {
    match s
    case CloneStage => 0
    case CheckoutStage => 1
    case ChecksumStage => 2
    case DockerfileStage => 3
    case ReadmeStage => 4
    case CommitStage => 5
    case PushStage => 6
    case PullRequestStage => 7
  }

  /** How the outside world answers updateVersion for one version: the first
      step that fails, if any, the checksum the download yields and the
      Dockerfile as read from the clone. */
  datatype UpdateEnv = UpdateEnv(failsAt: Option<Stage>, checksum: string, dockerfile: string)

  /** Step s completes under env. */
  predicate Passes(env: UpdateEnv, s: Stage)
  {
    env.failsAt.None? || StageIndex(s) < StageIndex(env.failsAt.value)
  }

  /** A step updateVersion completed. */
  datatype Effect =
    | ClonedRepo(path: string)
    | CheckedOut(path: string, branch: string)
    | GotChecksum(url: string, checksum: string)
    | WroteDockerfile(file: string, content: string)
    | EditedReadme(path: string)
    | Committed(path: string, message: string)
    | PushedBranch(path: string, branch: string)
    | OpenedPullRequest(version: Version, branch: string)
    | RemovedRepo(path: string)

  function RepoPath(v: Version): string { "/tmp/factorio-" + ToString(v) + "-repo" }

  function UpdateBranch(v: Version): string { "update-" + ToString(v) }

  function CommitMessage(v: Version): string { "update to " + ToString(v) }

  /** Step k of updateVersion for v. */
  function Step(v: Version, env: UpdateEnv, k: nat): Effect
    requires k < 8
  {
    var path := RepoPath(v);
    match k
    case 0 => ClonedRepo(path)
    case 1 => CheckedOut(path, UpdateBranch(v))
    case 2 => GotChecksum(DownloadUrl(v), env.checksum)
    case 3 => WroteDockerfile(DockerfilePath(path, v), EditDockerfile(env.dockerfile, v, env.checksum))
    case 4 => EditedReadme(path)
    case 5 => Committed(path, CommitMessage(v))
    case 6 => PushedBranch(path, UpdateBranch(v))
    case 7 => OpenedPullRequest(v, UpdateBranch(v))
  }

  /** Every step of updateVersion for v, in order. */
  function Steps(v: Version, env: UpdateEnv): (st: seq<Effect>)
    ensures |st| == 8
  {
    seq(8, k requires 0 <= k < 8 => Step(v, env, k))
  }

  /** Completing step k after the k before it. */
  lemma Advance(v: Version, env: UpdateEnv, k: nat, done: seq<Effect>)
    requires k < 8 && done == Steps(v, env)[..k]
    ensures done + [Step(v, env, k)] == Steps(v, env)[..k + 1]
  {
    PrefixStep(Steps(v, env), k);
  }

  /** The steps before the first failing one; a deferred removal of the clone
      follows once the clone exists. */
  function UpdateTrace(v: Version, env: UpdateEnv): seq<Effect>
  {
    var done := if env.failsAt.None? then Steps(v, env) else Steps(v, env)[..StageIndex(env.failsAt.value)];
    if done == [] then [] else done + [RemovedRepo(RepoPath(v))]
  }

  /** The number of steps that complete under env. */
  function Reached(env: UpdateEnv): nat
  {
    if env.failsAt.None? then 8 else StageIndex(env.failsAt.value)
  }

  lemma TraceShape(v: Version, env: UpdateEnv)
    ensures UpdateTrace(v, env) ==
              if Reached(env) == 0 then [] else Steps(v, env)[..Reached(env)] + [RemovedRepo(RepoPath(v))]
  {
    assert Steps(v, env)[..8] == Steps(v, env);
  }

  /** The trace once k steps are done and the next one fails (or all are
      done): nothing when the clone failed, else those steps and the removal. */
  lemma TraceAfter(v: Version, env: UpdateEnv, k: nat, done: seq<Effect>)
    requires k == Reached(env) && k <= 8 && done == Steps(v, env)[..k]
    ensures UpdateTrace(v, env) == if k == 0 then [] else done + [RemovedRepo(RepoPath(v))]
  {
    TraceShape(v, env);
  }

  /** Step j is in the trace exactly when it is one of the steps reached. */
  lemma TraceHas(v: Version, env: UpdateEnv, j: nat)
    requires j < 8
    ensures Steps(v, env)[j] in UpdateTrace(v, env) <==> j < Reached(env)
  {
    TraceShape(v, env);
    var st := Steps(v, env);
    var k := Reached(env);
    if st[j] in UpdateTrace(v, env) {
      assert st[j] != RemovedRepo(RepoPath(v));
      var i :| 0 <= i < k && st[..k][i] == st[j];
      assert st[i] == st[j];
    }
  }

  /** The trace is empty exactly when the clone fails; otherwise it starts
      with the clone and ends with its removal. */
  lemma TraceEnds(v: Version, env: UpdateEnv)
    ensures var t := UpdateTrace(v, env);
            && (|t| > 0 <==> Passes(env, CloneStage))
            && (|t| > 0 ==> t[0] == ClonedRepo(RepoPath(v)) && t[|t| - 1] == RemovedRepo(RepoPath(v)))
  {
    TraceShape(v, env);
  }

  /** Every step in the trace that names a branch names the update branch. */
  lemma TraceBranches(v: Version, env: UpdateEnv)
    ensures forall e :: e in UpdateTrace(v, env) && (e.CheckedOut? || e.PushedBranch? || e.OpenedPullRequest?) ==>
              e.branch == UpdateBranch(v)
  {
    TraceShape(v, env);
    var st := Steps(v, env);
    var k := Reached(env);
    forall e | e in UpdateTrace(v, env) && (e.CheckedOut? || e.PushedBranch? || e.OpenedPullRequest?)
      ensures e.branch == UpdateBranch(v)
    {
      var i :| 0 <= i < k && st[..k][i] == e;
      assert st[i] == e;
    }
  }

  /** A refused pull request panics after the push: the branch is pushed,
      no pull request is opened, and the clone is still removed. */
  lemma PullRequestRefused(v: Version, env: UpdateEnv)
    requires env.failsAt == Some(PullRequestStage)
    ensures UpdateTrace(v, env) == Steps(v, env)[..7] + [RemovedRepo(RepoPath(v))]
    ensures PushedBranch(RepoPath(v), UpdateBranch(v)) in UpdateTrace(v, env)
    ensures OpenedPullRequest(v, UpdateBranch(v)) !in UpdateTrace(v, env)
  {
    TraceShape(v, env);
    TraceHas(v, env, 6);
    TraceHas(v, env, 7);
  }

  // ---------------------------------------------------------------------------
  // The update loop (lines 85-101) as a function of the memo
  // ---------------------------------------------------------------------------

  /** Line 86: release lines before 0.13 are never updated. */
  predicate BelowFloor(v: Version)
  {
    v.major == 0 && v.minor < 13
  }

  /** The memo records v as handled for its release line. */
  predicate Memoized(memo: map<string, string>, v: Version)
  {
    BranchKey(v) in memo && memo[BranchKey(v)] == ToString(v)
  }

  /** The versions updateVersion was called for, the memo afterwards and
      whether a call panicked, which ends the cycle. */
  datatype Run = Run(attempted: seq<Version>, memo: map<string, string>, panicked: bool)

  function Prepend(a: seq<Version>, r: Run): Run
  {
    Run(a + r.attempted, r.memo, r.panicked)
  }

  /** The update loop over ls from memo, with env giving each version's
      outside world. */
  function Updates(ls: seq<Version>, memo: map<string, string>, env: Version -> UpdateEnv): Run
  {
    if ls == [] then Run([], memo, false)
    else
      var v := ls[0];
      if BelowFloor(v) || Memoized(memo, v) then Updates(ls[1..], memo, env)
      else
        var memo1 := memo[BranchKey(v) := ToString(v)];
        if env(v).failsAt.Some? then Run([v], memo1, true)
        else Prepend([v], Updates(ls[1..], memo1, env))
  }

  /** The update loop after i iterations has attempted `attempted` and left
      memo, and what remains of it is the loop over ls[i..]. */
  predicate UpdatesAfter(ls: seq<Version>, memo0: map<string, string>, env: Version -> UpdateEnv,
                         i: nat, attempted: seq<Version>, memo: map<string, string>)
    requires i <= |ls|
  {
    Updates(ls, memo0, env) == Prepend(attempted, Updates(ls[i..], memo, env))
  }

  lemma SkipStep(ls: seq<Version>, memo0: map<string, string>, env: Version -> UpdateEnv,
                 i: nat, attempted: seq<Version>, memo: map<string, string>)
    requires i < |ls| && UpdatesAfter(ls, memo0, env, i, attempted, memo)
    requires BelowFloor(ls[i]) || Memoized(memo, ls[i])
    ensures UpdatesAfter(ls, memo0, env, i + 1, attempted, memo)
  {
    assert ls[i..][1..] == ls[i + 1..];
  }

  lemma UpdateStep(ls: seq<Version>, memo0: map<string, string>, env: Version -> UpdateEnv,
                   i: nat, attempted: seq<Version>, memo: map<string, string>)
    requires i < |ls| && UpdatesAfter(ls, memo0, env, i, attempted, memo)
    requires !BelowFloor(ls[i]) && !Memoized(memo, ls[i]) && env(ls[i]).failsAt.None?
    ensures UpdatesAfter(ls, memo0, env, i + 1, attempted + [ls[i]], memo[BranchKey(ls[i]) := ToString(ls[i])])
  {
    assert ls[i..][1..] == ls[i + 1..];
    var r := Updates(ls[i + 1..], memo[BranchKey(ls[i]) := ToString(ls[i])], env);
    assert attempted + ([ls[i]] + r.attempted) == (attempted + [ls[i]]) + r.attempted;
  }

  lemma PanicStep(ls: seq<Version>, memo0: map<string, string>, env: Version -> UpdateEnv,
                  i: nat, attempted: seq<Version>, memo: map<string, string>)
    requires i < |ls| && UpdatesAfter(ls, memo0, env, i, attempted, memo)
    requires !BelowFloor(ls[i]) && !Memoized(memo, ls[i]) && env(ls[i]).failsAt.Some?
    ensures Updates(ls, memo0, env) == Run(attempted + [ls[i]], memo[BranchKey(ls[i]) := ToString(ls[i])], true)
  {
    assert ls[i..][1..] == ls[i + 1..];
  }

  /** At most one version per release line. */
  predicate OnePerBranch(ls: seq<Version>)
  {
    forall x, y :: x in ls && y in ls && SameBranch(x, y) ==> x == y
  }

  /** The facts the update loop keeps, for lists with one version per release
      line: it attempts only listed versions at or above the floor that the
      memo did not record, records each attempted version for its line, leaves
      every other line's entry alone and, when nothing panicked, ends with
      every listed version at or above the floor recorded. */
  predicate UpdatesFacts(ls: seq<Version>, memo: map<string, string>, r: Run)
  {
    && (forall x :: x in r.attempted ==> x in ls && !BelowFloor(x) && !Memoized(memo, x))
    && (forall x :: x in r.attempted ==> Memoized(r.memo, x))
    && (forall k :: k in memo && (forall x :: x in r.attempted ==> BranchKey(x) != k) ==>
          k in r.memo && r.memo[k] == memo[k])
    && (!r.panicked ==> forall x :: x in ls && !BelowFloor(x) ==> Memoized(r.memo, x))
  }

  lemma SameKeySameVersion(ls: seq<Version>, x: Version, y: Version)
    requires OnePerBranch(ls) && x in ls && y in ls && BranchKey(x) == BranchKey(y)
    ensures x == y
  {
    BranchKeyInjective(x, y);
  }

  /** A version skipped at the head of the list keeps the facts of the loop
      over the rest. */
  lemma SkipKeepsFacts(v: Version, rest: seq<Version>, memo: map<string, string>, r: Run)
    requires OnePerBranch([v] + rest) && (BelowFloor(v) || Memoized(memo, v))
    requires UpdatesFacts(rest, memo, r)
    ensures UpdatesFacts([v] + rest, memo, r)
  {
    var ls := [v] + rest;
    forall x | x in r.attempted
      ensures x in ls && !BelowFloor(x) && !Memoized(memo, x)
    {
    }
    forall x | x in ls && !BelowFloor(x) && !r.panicked
      ensures Memoized(r.memo, x)
    {
      if x == v {
        assert Memoized(memo, v);
        if BranchKey(v) !in r.memo || r.memo[BranchKey(v)] != memo[BranchKey(v)] {
          var y :| y in r.attempted && BranchKey(y) == BranchKey(v);
          SameKeySameVersion(ls, y, v);
        }
      }
    }
  }

  /** A version updated at the head of the list, followed by the loop over
      the rest from the memo that records it, keeps the facts. */
  lemma UpdateKeepsFacts(v: Version, rest: seq<Version>, memo: map<string, string>, r: Run)
    requires OnePerBranch([v] + rest) && !BelowFloor(v) && !Memoized(memo, v)
    requires UpdatesFacts(rest, memo[BranchKey(v) := ToString(v)], r)
    ensures UpdatesFacts([v] + rest, memo, Prepend([v], r))
  {
    var ls := [v] + rest;
    var memo1 := memo[BranchKey(v) := ToString(v)];
    var r' := Prepend([v], r);
    forall x | x in r.attempted
      ensures BranchKey(x) != BranchKey(v)
    {
      if BranchKey(x) == BranchKey(v) {
        SameKeySameVersion(ls, x, v);
      }
    }
    forall x | x in r'.attempted
      ensures x in ls && !BelowFloor(x) && !Memoized(memo, x)
    {
      if x != v {
        assert x in r.attempted;
        assert !Memoized(memo1, x);
      }
    }
    forall x | x in r'.attempted
      ensures Memoized(r'.memo, x)
    {
      if x == v {
        assert BranchKey(v) in memo1;
      }
    }
    forall k | k in memo && (forall x :: x in r'.attempted ==> BranchKey(x) != k)
      ensures k in r'.memo && r'.memo[k] == memo[k]
    {
      assert v in r'.attempted;
      assert k in memo1 && memo1[k] == memo[k];
    }
  }

  lemma {:induction false} UpdatesKeepFacts(ls: seq<Version>, memo: map<string, string>, env: Version -> UpdateEnv)
    requires OnePerBranch(ls)
    ensures UpdatesFacts(ls, memo, Updates(ls, memo, env))
  {
    if ls != [] {
      var v := ls[0];
      var rest := ls[1..];
      assert ls == [v] + rest;
      assert OnePerBranch(rest);
      if BelowFloor(v) || Memoized(memo, v) {
        UpdatesKeepFacts(rest, memo, env);
        SkipKeepsFacts(v, rest, memo, Updates(rest, memo, env));
      } else {
        var memo1 := memo[BranchKey(v) := ToString(v)];
        if env(v).failsAt.None? {
          UpdatesKeepFacts(rest, memo1, env);
          UpdateKeepsFacts(v, rest, memo, Updates(rest, memo1, env));
        }
      }
    }
  }

  /** When no update panicked, every listed version at or above the floor
      that the memo did not record was attempted. */
  lemma UpdatesComplete(ls: seq<Version>, memo: map<string, string>, env: Version -> UpdateEnv, x: Version)
    requires OnePerBranch(ls) && !Updates(ls, memo, env).panicked
    requires x in ls && !BelowFloor(x) && !Memoized(memo, x)
    ensures x in Updates(ls, memo, env).attempted
  {
    var r := Updates(ls, memo, env);
    UpdatesKeepFacts(ls, memo, env);
    if x !in r.attempted {
      forall y | y in r.attempted
        ensures BranchKey(y) != BranchKey(x)
      {
        if BranchKey(y) == BranchKey(x) {
          SameKeySameVersion(ls, x, y);
        }
      }
    }
  }

  /** A list whose versions are all below the floor or recorded needs no
      update. */
  lemma {:induction false} UpdatesIdle(ls: seq<Version>, memo: map<string, string>, env: Version -> UpdateEnv)
    requires forall x :: x in ls ==> BelowFloor(x) || Memoized(memo, x)
    ensures Updates(ls, memo, env) == Run([], memo, false)
  {
    if ls != [] {
      assert forall x :: x in ls[1..] ==> x in ls;
      UpdatesIdle(ls[1..], memo, env);
    }
  }

  /** A second pass over the same list after a pass without a panic updates
      nothing, whatever the outside world does. */
  lemma UpdatesSecondPassIdle(ls: seq<Version>, memo: map<string, string>, env: Version -> UpdateEnv, env': Version -> UpdateEnv)
    requires OnePerBranch(ls) && !Updates(ls, memo, env).panicked
    ensures var r := Updates(ls, memo, env);
            Updates(ls, r.memo, env') == Run([], r.memo, false)
  {
    UpdatesKeepFacts(ls, memo, env);
    UpdatesIdle(ls, Updates(ls, memo, env).memo, env');
  }

  /** The steps of the updates of vs, one after the other. */
  function TraceOf(vs: seq<Version>, env: Version -> UpdateEnv): seq<Effect>
  {
    if vs == [] then []
    else TraceOf(vs[..|vs| - 1], env) + UpdateTrace(vs[|vs| - 1], env(vs[|vs| - 1]))
  }

  lemma TraceOfSnoc(vs: seq<Version>, v: Version, env: Version -> UpdateEnv)
    ensures TraceOf(vs + [v], env) == TraceOf(vs, env) + UpdateTrace(v, env(v))
  {
    assert (vs + [v])[..|vs|] == vs;
  }

  // ---------------------------------------------------------------------------
  // One cycle of checkVersion
  // ---------------------------------------------------------------------------

  /** The versions left after the tag loop: the latest of each release line
      the walk keeps, without those a parseable tag names. */
  function Pending(steps: seq<AvailableVersionsStep>, tags: seq<ImageTag>): seq<Version>
  {
    WithoutAll(RunWalk(Sort(CollectedTo(steps))), ParseTags(tags))
  }

  /** One cycle: the update loop over the pending versions, from the memo
      the tag loop leaves. */
  function Check(steps: seq<AvailableVersionsStep>, tags: seq<ImageTag>, memo: map<string, string>,
                 env: Version -> UpdateEnv): Run
  {
    Updates(Pending(steps, tags), Kept(memo, ParseTags(tags)), env)
  }

  /** The registry has a tag named after x. */
  predicate Published(tags: seq<ImageTag>, x: Version)
  {
    exists i :: 0 <= i < |tags| && tags[i].name == ToString(x)
  }

  lemma RunWalkDistinct(vs: seq<Version>)
    requires Sorted(vs)
    ensures OnePerBranch(RunWalk(vs)) && DistinctNames(RunWalk(vs))
  {
    var r := RunWalk(vs);
    RunWalkOnePerBranch(vs);
    forall x, y | x in r && y in r && SameBranch(x, y)
      ensures x == y
    {
      var i :| 0 <= i < |r| && r[i] == x;
      var j :| 0 <= j < |r| && r[j] == y;
      assert !(i < j) && !(j < i);
    }
    forall i, j | 0 <= i < j < |r|
      ensures ToString(r[i]) != ToString(r[j])
    {
      ToStringInjective(r[i], r[j]);
    }
  }

  /** On distinct versions the tag loop leaves the versions no parseable
      tag names and the memo without the entries the registry publishes. */
  lemma ReconcileWalk(lastVersions: seq<Version>, memo0: map<string, string>, tags: seq<ImageTag>)
    requires DistinctNames(lastVersions)
    ensures var r := Reconcile(SliceState(lastVersions, |lastVersions|), memo0, ParseTags(tags));
            && r.Reconciled?
            && r.slice.arr[..r.slice.len] == WithoutAll(lastVersions, ParseTags(tags))
            && r.memo == Kept(memo0, ParseTags(tags))
  {
    var ps := ParseTags(tags);
    assert lastVersions[..|lastVersions|] == lastVersions;
    ReconcileDistinct(lastVersions, |lastVersions|, memo0, ps);
    ReconcileMemo(SliceState(lastVersions, |lastVersions|), memo0, ps);
  }

  /** A tag whose version parses names x exactly when its name is x's. */
  lemma ParsedNames(tags: seq<ImageTag>, x: Version)
    requires Fits(x)
    ensures (exists i :: 0 <= i < |tags| && ParseTags(tags)[i].version.Some? && ParseTags(tags)[i].name == ToString(x))
            <==> Published(tags, x)
  {
    var ps := ParseTags(tags);
    if exists i :: 0 <= i < |tags| && ps[i].version.Some? && ps[i].name == ToString(x) {
      var i :| 0 <= i < |tags| && ps[i].version.Some? && ps[i].name == ToString(x);
      assert tags[i].name == ToString(x);
    }
    if Published(tags, x) {
      var i :| 0 <= i < |tags| && tags[i].name == ToString(x);
      ParseToString(x);
      assert ps[i].version.Some? && ps[i].name == ToString(x);
    }
  }

  /** A version is pending exactly when it is the greatest of its release
      line in the feed, its line is not the dropped final singleton, and no
      registry tag is named after it. */
  lemma PendingMembers(steps: seq<AvailableVersionsStep>, tags: seq<ImageTag>, x: Version)
    ensures var vs := Sort(CollectedTo(steps));
            x in Pending(steps, tags) <==> IsBranchMax(vs, x) && NotDropped(vs, x) && !Published(tags, x)
  {
    var vs := Sort(CollectedTo(steps));
    WithoutAllMembers(RunWalk(vs), ParseTags(tags), x);
    RunWalkMembers(vs, x);
    if x in vs {
      CollectedFits(steps, x);
      ParsedNames(tags, x);
    }
  }

  /** Every collected version came out of semver.Make, so it fits uint64. */
  lemma CollectedFits(steps: seq<AvailableVersionsStep>, x: Version)
    requires x in Sort(CollectedTo(steps))
    ensures Fits(x)
  {
    assert x in multiset(Sort(CollectedTo(steps)));
    CollectedToMembers(steps, x);
  }

  lemma PendingOnePerBranch(steps: seq<AvailableVersionsStep>, tags: seq<ImageTag>)
    ensures OnePerBranch(Pending(steps, tags))
  {
    var vs := Sort(CollectedTo(steps));
    RunWalkDistinct(vs);
    forall x | x in Pending(steps, tags)
      ensures x in RunWalk(vs)
    {
      WithoutAllMembers(RunWalk(vs), ParseTags(tags), x);
    }
  }

  /** For a version the registry does not publish, the tag loop leaves its
      memo entry as it was. */
  lemma KeptUnpublished(memo: map<string, string>, tags: seq<ImageTag>, x: Version)
    requires !Published(tags, x)
    ensures Memoized(Kept(memo, ParseTags(tags)), x) <==> Memoized(memo, x)
  {
    var ps := ParseTags(tags);
    assert forall i :: 0 <= i < |ps| && ps[i].version.Some? ==> ToString(ps[i].version.value) == tags[i].name;
  }

  /** A cycle updates exactly the pending versions at or above the floor
      that the memo did not record, when no update panics; when one does,
      it has updated only such versions. */
  lemma CheckAttempts(steps: seq<AvailableVersionsStep>, tags: seq<ImageTag>, memo: map<string, string>,
                      env: Version -> UpdateEnv, x: Version)
    ensures var r := Check(steps, tags, memo, env);
            && (x in r.attempted ==> x in Pending(steps, tags) && !BelowFloor(x) && !Memoized(memo, x))
            && (!r.panicked && x in Pending(steps, tags) && !BelowFloor(x) && !Memoized(memo, x) ==> x in r.attempted)
  {
    var ls := Pending(steps, tags);
    var m := Kept(memo, ParseTags(tags));
    PendingOnePerBranch(steps, tags);
    UpdatesKeepFacts(ls, m, env);
    if x in ls {
      PendingMembers(steps, tags, x);
      KeptUnpublished(memo, tags, x);
      if !Updates(ls, m, env).panicked && !BelowFloor(x) && !Memoized(memo, x) {
        UpdatesComplete(ls, m, env, x);
      }
    }
  }

  /** After a cycle without a panic, a second cycle over the same feed and
      tags updates nothing, whatever the outside world does. */
  lemma CheckTwiceIdle(steps: seq<AvailableVersionsStep>, tags: seq<ImageTag>, memo: map<string, string>,
                       env: Version -> UpdateEnv, env': Version -> UpdateEnv)
    requires !Check(steps, tags, memo, env).panicked
    ensures var r := Check(steps, tags, memo, env);
            Check(steps, tags, r.memo, env').attempted == []
  {
    var ls := Pending(steps, tags);
    var r := Check(steps, tags, memo, env);
    PendingOnePerBranch(steps, tags);
    UpdatesKeepFacts(ls, Kept(memo, ParseTags(tags)), env);
    forall x | x in ls
      ensures BelowFloor(x) || Memoized(Kept(r.memo, ParseTags(tags)), x)
    {
      PendingMembers(steps, tags, x);
      KeptUnpublished(r.memo, tags, x);
    }
    UpdatesIdle(ls, Kept(r.memo, ParseTags(tags)), env');
  }

  // ---------------------------------------------------------------------------
  // The watchdog process and its memo
  // ---------------------------------------------------------------------------

  /** The process state: latestVersionProceeded maps a release line's
      "major.minor" key to the version last handed to updateVersion. */
  class Watchdog {
    var latestVersionProceeded: map<string, string>

    /** main, line 15. */
    constructor ()
      ensures latestVersionProceeded == map[]
    {
      latestVersionProceeded := map[];
    }

    /** Lines 76-82 for one tag version. */
    method ForgetPublished(tagVersion: Version)
      modifies this
      ensures latestVersionProceeded == Forget(old(latestVersionProceeded), tagVersion)
    {
      var key := BranchKey(tagVersion);
      if key in latestVersionProceeded {
        var val := latestVersionProceeded[key];
        if val == ToString(tagVersion) {
          latestVersionProceeded := latestVersionProceeded - {key};
        }
      }
    }

    /** The tag loop of lines 65-83 over the slice of length len on a. */
    method RemovePublished(a: array<Version>, len: nat, tags: seq<ImageTag>) returns (len': nat, panicked: bool)
      requires len <= a.Length
      modifies this, a
      ensures var r := Reconcile(SliceState(old(a[..]), len), old(latestVersionProceeded), ParseTags(tags));
              && (panicked <==> r.Aborted?)
              && latestVersionProceeded == r.memo
              && (r.Reconciled? ==> a[..] == r.slice.arr && len' == r.slice.len)
    {
      ghost var st0 := SliceState(a[..], len);
      ghost var memo0 := latestVersionProceeded;
      ghost var ps := ParseTags(tags);
      len' := len;
      var k := 0;
      while k < |tags|
        invariant 0 <= k <= |tags| && a.Length == |st0.arr|
        invariant Reconcile(st0, memo0, ps[..k]) == Reconciled(SliceState(a[..], len'), latestVersionProceeded)
      {
        assert ps[..k + 1][..k] == ps[..k];
        var tag := tags[k];
        var tagVersion := Parse(tag.name);
        k := k + 1;
        if tagVersion.None? {
          continue;
        }
        len', panicked := RemoveTagged(a, len', tag.name);
        if panicked {
          AbortPersists(st0, memo0, ps, k);
          return;
        }
        ForgetPublished(tagVersion.value);
      }
      assert ps[..k] == ps;
      panicked := false;
    }

    /** updateVersion: the memo records v before anything can fail, then
        the steps run in order until one panics; once the clone exists, its
        deferred removal runs on return and on panic alike. */
    method UpdateVersion(v: Version, env: UpdateEnv) returns (effects: seq<Effect>, panicked: bool)
      modifies this
      ensures latestVersionProceeded == old(latestVersionProceeded)[BranchKey(v) := ToString(v)]
      ensures panicked <==> env.failsAt.Some?
      ensures effects == UpdateTrace(v, env)
    {
      latestVersionProceeded := latestVersionProceeded[BranchKey(v) := ToString(v)];
      var pathRepo := RepoPath(v);
      panicked := env.failsAt.Some?;
      if env.failsAt == Some(CloneStage) {
        TraceAfter(v, env, 0, []);
        return [], true;
      }
      Advance(v, env, 0, []);
      var done := InClone(v, env, [ClonedRepo(pathRepo)]);
      TraceAfter(v, env, Reached(env), done);
      effects := done + [RemovedRepo(pathRepo)];
    }

    /** The steps of updateVersion after a successful clone, up to the first
        one that panics. */
    method InClone(v: Version, env: UpdateEnv, cloned: seq<Effect>) returns (done: seq<Effect>)
      requires Passes(env, CloneStage) && cloned == Steps(v, env)[..1]
      ensures done == Steps(v, env)[..Reached(env)]
    {
      var pathRepo := RepoPath(v);
      var branch := UpdateBranch(v);
      done := cloned;
      if env.failsAt == Some(CheckoutStage) {
        return;
      }
      Advance(v, env, 1, done);
      done := done + [CheckedOut(pathRepo, branch)];
      if env.failsAt == Some(ChecksumStage) {
        return;
      }
      var checksum := env.checksum;
      Advance(v, env, 2, done);
      done := done + [GotChecksum(DownloadUrl(v), checksum)];
      if env.failsAt == Some(DockerfileStage) {
        return;
      }
      Advance(v, env, 3, done);
      done := done + [WroteDockerfile(DockerfilePath(pathRepo, v), EditDockerfile(env.dockerfile, v, checksum))];
      if env.failsAt == Some(ReadmeStage) {
        return;
      }
      Advance(v, env, 4, done);
      done := done + [EditedReadme(pathRepo)];
      if env.failsAt == Some(CommitStage) {
        return;
      }
      Advance(v, env, 5, done);
      done := done + [Committed(pathRepo, CommitMessage(v))];
      if env.failsAt == Some(PushStage) {
        return;
      }
      Advance(v, env, 6, done);
      done := done + [PushedBranch(pathRepo, branch)];
      if env.failsAt == Some(PullRequestStage) {
        return;
      }
      Advance(v, env, 7, done);
      done := done + [OpenedPullRequest(v, branch)];
    }

    /** The update loop of lines 85-101; a panic in updateVersion ends it. */
    method RunUpdates(ls: seq<Version>, env: Version -> UpdateEnv) returns (attempted: seq<Version>, log: seq<Effect>, panicked: bool)
      modifies this
      ensures Run(attempted, latestVersionProceeded, panicked) == Updates(ls, old(latestVersionProceeded), env)
      ensures log == TraceOf(attempted, env)
    {
      ghost var memo0 := latestVersionProceeded;
      attempted := [];
      log := [];
      panicked := false;
      var i := 0;
      assert ls[0..] == ls;
      while i < |ls|
        invariant 0 <= i <= |ls|
        invariant UpdatesAfter(ls, memo0, env, i, attempted, latestVersionProceeded)
        invariant log == TraceOf(attempted, env)
      {
        attempted, log, panicked := Visit(ls, i, env, memo0, attempted, log);
        if panicked {
          return;
        }
        i := i + 1;
      }
      assert ls[i..] == [];
    }

    /** One iteration of the update loop, on ls[i]. */
    method Visit(ls: seq<Version>, i: nat, env: Version -> UpdateEnv, ghost memo0: map<string, string>,
                 attempted: seq<Version>, log: seq<Effect>)
      returns (attempted': seq<Version>, log': seq<Effect>, panicked: bool)
      requires i < |ls| && UpdatesAfter(ls, memo0, env, i, attempted, latestVersionProceeded)
      requires log == TraceOf(attempted, env)
      modifies this
      ensures log' == TraceOf(attempted', env)
      ensures panicked ==> Updates(ls, memo0, env) == Run(attempted', latestVersionProceeded, true)
      ensures !panicked ==> UpdatesAfter(ls, memo0, env, i + 1, attempted', latestVersionProceeded)
    {
      var version := ls[i];
      attempted', log', panicked := attempted, log, false;
      if version.major == 0 && version.minor < 13 {
        SkipStep(ls, memo0, env, i, attempted, latestVersionProceeded);
        return;
      }
      var key := BranchKey(version);
      if key in latestVersionProceeded {
        var val := latestVersionProceeded[key];
        if val == ToString(version) {
          SkipStep(ls, memo0, env, i, attempted, latestVersionProceeded);
          return;
        }
      }
      ghost var memo := latestVersionProceeded;
      var effects;
      effects, panicked := UpdateVersion(version, env(version));
      TraceOfSnoc(attempted, version, env);
      attempted' := attempted + [version];
      log' := log + effects;
      if panicked {
        PanicStep(ls, memo0, env, i, attempted, memo);
      } else {
        UpdateStep(ls, memo0, env, i, attempted, memo);
      }
    }

    /** checkVersion (lines 22-102) on the feed's records, the registry's tags
        and the outside world of each update. */
    method CheckVersion(steps: seq<AvailableVersionsStep>, tags: seq<ImageTag>, env: Version -> UpdateEnv)
      returns (attempted: seq<Version>, log: seq<Effect>, panicked: bool)
      modifies this
      ensures Run(attempted, latestVersionProceeded, panicked) == Check(steps, tags, old(latestVersionProceeded), env)
      ensures log == TraceOf(attempted, env)
    {
      var versions := CollectVersions(steps);
      var sorted := Sort(versions);
      var lastVersions := SelectLatest(sorted);
      var a := new Version[|lastVersions|](i requires 0 <= i < |lastVersions| => lastVersions[i]);
      assert a[..] == lastVersions;
      ghost var memo0 := latestVersionProceeded;
      ghost var ps := ParseTags(tags);
      ghost var r := Reconcile(SliceState(lastVersions, |lastVersions|), memo0, ps);
      ghost var pending := WithoutAll(lastVersions, ps);
      RunWalkDistinct(sorted);
      ReconcileWalk(lastVersions, memo0, tags);
      assert pending == Pending(steps, tags);
      // On these distinct versions the tag loop cannot panic.
      var len, _ := RemovePublished(a, |lastVersions|, tags);
      assert a[..] == r.slice.arr && len == r.slice.len && latestVersionProceeded == r.memo;
      assert a[..len] == pending;
      attempted, log, panicked := RunUpdates(a[..len], env);
    }
  }
}
