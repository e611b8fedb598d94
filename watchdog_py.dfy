/** watchdog.py: the Python watchdog. One run reads the updater feed, keeps
    the highest patch of every "major.minor" prefix, tags each kept version
    with its prefix and its full version, adds "latest" and "stable", and
    rewrites buildinfo.json and the README tag list when the tags changed.
    Python's dicts keep insertion order, so a dict is a sequence of entries
    with distinct keys; an exception that ends loop() is the Raised outcome. */
module PyWatchdog {
  import opened Wrappers
  import opened Strings
  import opened Readme
  import GitEdits

  // ---------------------------------------------------------------------------
  // Python values
  // ---------------------------------------------------------------------------

  /** The value of an expression, or an exception that ends loop(). */
  datatype Outcome<+T> = Raised | Ok(value: T)

  /** str(n) for a Python int. */
  function PyStr(n: int): string
  {
    if n < 0 then "-" + NatToString(-n) else NatToString(n)
  }

  /** int(s) on an optional sign followed by ASCII digits (leading zeros
      allowed); None where int raises ValueError. */
  function PyInt(s: string): Option<int>
  {
    if |s| > 0 && (s[0] == '-' || s[0] == '+') then
      var digits := s[1..];
      if |digits| > 0 && AllDigits(digits) then
        var v: int := NumeralValue(digits);
        Some(if s[0] == '-' then -v else v)
      else None
    else if |s| > 0 && AllDigits(s) then Some(NumeralValue(s))
    else None
  }

  /** int reads back what str prints. */
  lemma PyIntOfPyStr(n: int)
    ensures PyInt(PyStr(n)) == Some(n)
  {
    if n < 0 {
      var s := NatToString(-n);
      assert PyStr(n) == "-" + s && (PyStr(n))[1..] == s;
      NumeralValueOfNatToString(-n);
    } else {
      var s := NatToString(n);
      NumeralValueOfNatToString(n);
      assert IsDigit(s[0]);
    }
  }

  lemma PyStrHasNoDot(n: int)
    ensures '.' !in PyStr(n)
  {
    NatToStringCanonical(if n < 0 then -n else n);
    if n < 0 {
      NumeralHasNoSeparator(NatToString(-n), '.');
    } else {
      NumeralHasNoSeparator(NatToString(n), '.');
    }
  }

  /** a, b = s.rsplit(".", 1): the text before and after the last '.', or
      None where s has no '.' and the unpacking raises ValueError. */
  function RSplitDot(s: string): (r: Option<(string, string)>)
    ensures r.None? <==> '.' !in s
    ensures r.Some? ==> s == r.value.0 + "." + r.value.1 && '.' !in r.value.1
  {
    match LastIndexOfChar(s, '.')
    case None => None
    case Some(i) =>
      assert s == s[..i] + "." + s[i + 1..];
      Some((s[..i], s[i + 1..]))
  }

  /** rsplit undoes the joining of a prefix and a text without '.'. */
  lemma RSplitJoin(p: string, t: string)
    requires '.' !in t
    ensures RSplitDot(p + "." + t) == Some((p, t))
  {
    var s := p + "." + t;
    var i := LastIndexOfChar(s, '.').value;
    assert s[|p|] == '.';
    assert s[..|p|] == p && s[|p| + 1..] == t;
  }

  // ---------------------------------------------------------------------------
  // Dicts in insertion order
  // ---------------------------------------------------------------------------

  datatype Slot<V> = Slot(key: string, value: V)

  function Keys<V>(d: seq<Slot<V>>): (ks: seq<string>)
    ensures |ks| == |d| && forall i :: 0 <= i < |d| ==> ks[i] == d[i].key
  {
    seq(|d|, i requires 0 <= i < |d| => d[i].key)
  }

  /** No key occurs twice. */
  predicate IsDict<V>(d: seq<Slot<V>>)
  {
    forall i, j :: 0 <= i < j < |d| ==> d[i].key != d[j].key
  }

  /** The position of key k, if present. */
  function Find<V>(d: seq<Slot<V>>, k: string): (r: Option<nat>)
    ensures r.Some? ==> r.value < |d| && d[r.value].key == k
    ensures r.None? <==> forall i :: 0 <= i < |d| ==> d[i].key != k
  {
    if d == [] then None
    else if d[|d| - 1].key == k then Some(|d| - 1)
    else Find(d[..|d| - 1], k)
  }

  /** d[k] = v: an existing key keeps its place, a new one goes last. */
  function Put<V>(d: seq<Slot<V>>, k: string, v: V): (r: seq<Slot<V>>)
    ensures IsDict(d) ==> IsDict(r)
    ensures Find(d, k).Some? ==> r == d[Find(d, k).value := Slot(k, v)]
    ensures Find(d, k).None? ==> r == d + [Slot(k, v)]
  {
    match Find(d, k)
    case Some(i) => d[i := Slot(k, v)]
    case None => d + [Slot(k, v)]
  }

  /** In a dict, the key at position i is found at i. */
  lemma FindIn<V>(d: seq<Slot<V>>, i: nat)
    requires IsDict(d) && i < |d|
    ensures Find(d, d[i].key) == Some(i)
  {
  }

  // ---------------------------------------------------------------------------
  // The feed scan (lines 65-75)
  // ---------------------------------------------------------------------------

  /** One record of the updater feed: its "to" and "stable" values where it
      has those keys. */
  datatype Record = Record(to: Option<string>, stable: Option<string>)

  /** stable_version and highest_version_per_prefix. */
  datatype ScanState = ScanState(stable: Option<string>, highest: seq<Slot<int>>)

  /** The prefix and integer patch of a "to" value; None where rsplit or int
      raises. */
  function PrefixPatch(to: string): Option<(string, int)>
  {
    match RSplitDot(to)
    case None => None
    case Some(pt) =>
      match PyInt(pt.1)
      case None => None
      case Some(n) => Some((pt.0, n))
  }

  /** Record r names prefix p with patch n. */
  predicate Gives(r: Record, p: string, n: int)
  {
    r.to.Some? && PrefixPatch(r.to.value) == Some((p, n))
  }

  /** Record r has a "to" that raises. */
  predicate Malformed(r: Record)
  {
    r.to.Some? && PrefixPatch(r.to.value).None?
  }

  /** One iteration of the scan. */
  function ScanStep(st: ScanState, r: Record): Outcome<ScanState>
  {
    var stable := if r.stable.Some? then r.stable else st.stable;
    if r.to.None? then Ok(ScanState(stable, st.highest))
    else
      match PrefixPatch(r.to.value)
      case None => Raised
      case Some(pp) =>
        var f := Find(st.highest, pp.0);
        if f.None? || st.highest[f.value].value < pp.1 then Ok(ScanState(stable, Put(st.highest, pp.0, pp.1)))
        else Ok(ScanState(stable, st.highest))
  }

  /** The scan over the records rs. */
  function Scan(rs: seq<Record>): Outcome<ScanState>
  {
    if rs == [] then Ok(ScanState(None, []))
    else
      match Scan(rs[..|rs| - 1])
      case Raised => Raised
      case Ok(st) => ScanStep(st, rs[|rs| - 1])
  }

  lemma {:induction false} ScanRaisedPersists(rs: seq<Record>, k: nat)
    requires k <= |rs| && Scan(rs[..k]).Raised?
    ensures Scan(rs).Raised?
    decreases |rs| - k
  {
    if k < |rs| {
      assert rs[..k + 1][..k] == rs[..k];
      ScanRaisedPersists(rs, k + 1);
    } else {
      assert rs[..k] == rs;
    }
  }

  /** The loop of lines 68-75. */
  method ScanFeed(rs: seq<Record>) returns (r: Outcome<ScanState>)
    ensures r == Scan(rs)
  {
    var stableVersion: Option<string> := None;
    var highest: seq<Slot<int>> := [];
    var i := 0;
    while i < |rs|
      invariant 0 <= i <= |rs|
      invariant Scan(rs[..i]) == Ok(ScanState(stableVersion, highest))
    {
      assert rs[..i + 1][..i] == rs[..i];
      var version := rs[i];
      if version.stable.Some? {
        stableVersion := version.stable;
      }
      if version.to.Some? {
        var split := RSplitDot(version.to.value);
        if split.None? {
          ScanRaisedPersists(rs, i + 1);
          return Raised;
        }
        var prefix := split.value.0;
        var patch := PyInt(split.value.1);
        if patch.None? {
          ScanRaisedPersists(rs, i + 1);
          return Raised;
        }
        var f := Find(highest, prefix);
        if f.None? || highest[f.value].value < patch.value {
          highest := Put(highest, prefix, patch.value);
        }
      }
      i := i + 1;
    }
    assert rs[..i] == rs;
    return Ok(ScanState(stableVersion, highest));
  }

  /** The scan raises exactly when some record's "to" has no '.' or a patch
      int cannot read. */
  lemma {:induction false} ScanRaised(rs: seq<Record>)
    ensures Scan(rs).Raised? <==> exists i :: 0 <= i < |rs| && Malformed(rs[i])
  {
    if rs != [] {
      var n := |rs| - 1;
      ScanRaised(rs[..n]);
      assert forall i :: 0 <= i < n ==> rs[..n][i] == rs[i];
    }
  }

  /** The "stable" of the last record that has one. */
  function LastStable(rs: seq<Record>): Option<string>
  {
    if rs == [] then None
    else if rs[|rs| - 1].stable.Some? then rs[|rs| - 1].stable
    else LastStable(rs[..|rs| - 1])
  }

  lemma {:induction false} ScanKeepsLastStable(rs: seq<Record>)
    requires Scan(rs).Ok?
    ensures Scan(rs).value.stable == LastStable(rs)
  {
    if rs != [] {
      ScanKeepsLastStable(rs[..|rs| - 1]);
    }
  }

  lemma {:induction false} LastStableIsLast(rs: seq<Record>)
    ensures var s := LastStable(rs);
            && (s.None? <==> forall i :: 0 <= i < |rs| ==> rs[i].stable.None?)
            && (s.Some? ==> exists i :: 0 <= i < |rs| && rs[i].stable == s &&
                              forall j :: i < j < |rs| ==> rs[j].stable.None?)
  {
    if rs != [] {
      var n := |rs| - 1;
      var prev := rs[..n];
      LastStableIsLast(prev);
      assert forall i :: 0 <= i < n ==> prev[i] == rs[i];
      if rs[n].stable.None? && LastStable(prev).Some? {
        var i :| 0 <= i < n && prev[i].stable == LastStable(prev) && forall j :: i < j < n ==> prev[j].stable.None?;
        assert rs[i].stable == LastStable(rs);
      }
    }
  }

  /** stable_version is the "stable" of the last record that has one. */
  lemma ScanStable(rs: seq<Record>)
    requires Scan(rs).Ok?
    ensures var s := Scan(rs).value.stable;
            && (s.None? <==> forall i :: 0 <= i < |rs| ==> rs[i].stable.None?)
            && (s.Some? ==> exists i :: 0 <= i < |rs| && rs[i].stable == s &&
                              forall j :: i < j < |rs| ==> rs[j].stable.None?)
  {
    ScanKeepsLastStable(rs);
    LastStableIsLast(rs);
  }

  /** Some record of rs names prefix p with patch n. */
  predicate Named(rs: seq<Record>, p: string, n: int)
  {
    exists i :: 0 <= i < |rs| && Gives(rs[i], p, n)
  }

  /** Prefix p is a key of h with a patch of at least n. */
  predicate KeptAtLeast(h: seq<Slot<int>>, p: string, n: int)
  {
    exists k :: 0 <= k < |h| && h[k].key == p && n <= h[k].value
  }

  /** Every prefix some record names is a key, with a patch at least the one
      named. */
  predicate Covers(rs: seq<Record>, h: seq<Slot<int>>)
  {
    forall i :: 0 <= i < |rs| && rs[i].to.Some? && PrefixPatch(rs[i].to.value).Some? ==>
      KeptAtLeast(h, PrefixPatch(rs[i].to.value).value.0, PrefixPatch(rs[i].to.value).value.1)
  }

  /** Every key, with its patch, is named by some record. */
  predicate Attains(rs: seq<Record>, h: seq<Slot<int>>)
  {
    forall k :: 0 <= k < |h| ==> Named(rs, h[k].key, h[k].value)
  }

  /** highest_version_per_prefix is a dict holding, for every prefix some
      record names, the greatest patch named for it, and nothing else. */
  predicate HighestOf(rs: seq<Record>, h: seq<Slot<int>>)
  {
    IsDict(h) && Covers(rs, h) && Attains(rs, h)
  }

  /** The prefixes of rs + [r] are covered after the step on r. */
  lemma CoveredStep(rs: seq<Record>, h: seq<Slot<int>>, r: Record, h': seq<Slot<int>>)
    requires Covers(rs, h) && r.to.Some? && PrefixPatch(r.to.value).Some?
    requires var pp := PrefixPatch(r.to.value).value;
             var f := Find(h, pp.0);
             h' == if f.None? || h[f.value].value < pp.1 then Put(h, pp.0, pp.1) else h
    ensures Covers(rs + [r], h')
  {
    var pp := PrefixPatch(r.to.value).value;
    var f := Find(h, pp.0);
    var ws := rs + [r];
    forall i | 0 <= i < |ws| && ws[i].to.Some? && PrefixPatch(ws[i].to.value).Some?
      ensures KeptAtLeast(h', PrefixPatch(ws[i].to.value).value.0, PrefixPatch(ws[i].to.value).value.1)
    {
      if i == |rs| {
        if f.None? {
          assert h'[|h|].key == pp.0;
        } else {
          assert h'[f.value].key == pp.0;
        }
      } else {
        assert ws[i] == rs[i];
        var q := PrefixPatch(rs[i].to.value).value;
        var k :| 0 <= k < |h| && h[k].key == q.0 && q.1 <= h[k].value;
        assert h'[k].key == h[k].key && h[k].value <= h'[k].value;
      }
    }
  }

  /** Keys attained in rs stay attained in rs + [r]. */
  lemma AttainsSnoc(rs: seq<Record>, h: seq<Slot<int>>, r: Record)
    requires Attains(rs, h)
    ensures Attains(rs + [r], h)
  {
    var ws := rs + [r];
    forall k | 0 <= k < |h|
      ensures Named(ws, h[k].key, h[k].value)
    {
      var i :| 0 <= i < |rs| && Gives(rs[i], h[k].key, h[k].value);
      assert ws[i] == rs[i];
    }
  }

  lemma AttainsAppend(ws: seq<Record>, h: seq<Slot<int>>, p: string, n: int)
    requires Attains(ws, h) && Named(ws, p, n)
    ensures Attains(ws, h + [Slot(p, n)])
  {
    var h' := h + [Slot(p, n)];
    forall k | 0 <= k < |h'|
      ensures Named(ws, h'[k].key, h'[k].value)
    {
      if k < |h| {
        assert h'[k] == h[k];
      }
    }
  }

  lemma AttainsReplace(ws: seq<Record>, h: seq<Slot<int>>, f: nat, p: string, n: int)
    requires Attains(ws, h) && f < |h| && Named(ws, p, n)
    ensures Attains(ws, h[f := Slot(p, n)])
  {
    var h' := h[f := Slot(p, n)];
    forall k | 0 <= k < |h'|
      ensures Named(ws, h'[k].key, h'[k].value)
    {
      if k != f {
        assert h'[k] == h[k];
      }
    }
  }

  /** Every key after the step on r is named, with its patch, by a record of
      rs + [r]. */
  lemma AttainedStep(rs: seq<Record>, h: seq<Slot<int>>, r: Record, h': seq<Slot<int>>)
    requires Attains(rs, h) && r.to.Some? && PrefixPatch(r.to.value).Some?
    requires var pp := PrefixPatch(r.to.value).value;
             var f := Find(h, pp.0);
             h' == if f.None? || h[f.value].value < pp.1 then Put(h, pp.0, pp.1) else h
    ensures Attains(rs + [r], h')
  {
    var pp := PrefixPatch(r.to.value).value;
    var f := Find(h, pp.0);
    var ws := rs + [r];
    assert Gives(ws[|rs|], pp.0, pp.1);
    AttainsSnoc(rs, h, r);
    if f.None? {
      AttainsAppend(ws, h, pp.0, pp.1);
    } else if h[f.value].value < pp.1 {
      AttainsReplace(ws, h, f.value, pp.0, pp.1);
    }
  }

  /** After a scan that does not raise, every prefix a record names is a key
      of highest_version_per_prefix, no other is, and each key's patch is the
      greatest named for it. */
  lemma {:induction false} ScanHighest(rs: seq<Record>)
    requires Scan(rs).Ok?
    ensures HighestOf(rs, Scan(rs).value.highest)
  {
    if rs != [] {
      var n := |rs| - 1;
      var prev := rs[..n];
      ScanHighest(prev);
      var h := Scan(prev).value.highest;
      var h' := Scan(rs).value.highest;
      assert prev + [rs[n]] == rs;
      if rs[n].to.Some? {
        CoveredStep(prev, h, rs[n], h');
        AttainedStep(prev, h, rs[n], h');
      } else {
        assert h' == h;
        assert forall i :: 0 <= i < n ==> rs[i] == prev[i];
        AttainsSnoc(prev, h, rs[n]);
      }
    }
  }

  // ---------------------------------------------------------------------------
  // get_max_prefix (lines 8-18)
  // ---------------------------------------------------------------------------

  /** major, minor = list(map(int, prefix.split("."))); None where that
      raises (a part int cannot read, or not exactly two parts). */
  function PrefixKey(prefix: string): Option<(int, int)>
  {
    var parts := Split(prefix, '.');
    if |parts| == 2 && PyInt(parts[0]).Some? && PyInt(parts[1]).Some? then
      Some((PyInt(parts[0]).value, PyInt(parts[1]).value))
    else None
  }

  /** (major, minor) pairs in the order the comparison of line 14 uses. */
  predicate KeyLess(a: (int, int), b: (int, int))
  {
    a.0 < b.0 || (a.0 == b.0 && a.1 < b.1)
  }

  /** Both prefixes read as numbers and p's are smaller than q's. */
  predicate Below(p: string, q: string)
  {
    PrefixKey(p).Some? && PrefixKey(q).Some? && KeyLess(PrefixKey(p).value, PrefixKey(q).value)
  }

  /** The result of get_max_prefix over ps. */
  function MaxPrefix(ps: seq<string>): (r: Outcome<Option<string>>)
    ensures r.Ok? && r.value.Some? ==> r.value.value in ps && PrefixKey(r.value.value).Some?
  {
    if ps == [] then Ok(None)
    else
      match MaxPrefix(ps[..|ps| - 1])
      case Raised => Raised
      case Ok(best) =>
        var p := ps[|ps| - 1];
        match PrefixKey(p)
        case None => Raised
        case Some(k) =>
          if best.None? || KeyLess(PrefixKey(best.value).value, k) then Ok(Some(p)) else Ok(best)
  }

  /** get_max_prefix. */
  method GetMaxPrefix(prefixes: seq<string>) returns (r: Outcome<Option<string>>)
    ensures r == MaxPrefix(prefixes)
  {
    var toReturn: Option<string> := None;
    var candidateMajor := 0;
    var candidateMinor := 0;
    var i := 0;
    while i < |prefixes|
      invariant 0 <= i <= |prefixes|
      invariant MaxPrefix(prefixes[..i]) == Ok(toReturn)
      invariant toReturn.Some? ==> PrefixKey(toReturn.value) == Some((candidateMajor, candidateMinor))
    {
      assert prefixes[..i + 1][..i] == prefixes[..i];
      var prefix := prefixes[i];
      var key := PrefixKey(prefix);
      if key.None? {
        MaxPrefixRaisedPersists(prefixes, i + 1);
        return Raised;
      }
      var major := key.value.0;
      var minor := key.value.1;
      if toReturn.None? || major > candidateMajor || (major == candidateMajor && minor > candidateMinor) {
        candidateMajor := major;
        candidateMinor := minor;
        toReturn := Some(prefix);
      }
      i := i + 1;
    }
    assert prefixes[..i] == prefixes;
    return Ok(toReturn);
  }

  lemma {:induction false} MaxPrefixRaisedPersists(ps: seq<string>, k: nat)
    requires k <= |ps| && MaxPrefix(ps[..k]).Raised?
    ensures MaxPrefix(ps).Raised?
    decreases |ps| - k
  {
    if k < |ps| {
      assert ps[..k + 1][..k] == ps[..k];
      MaxPrefixRaisedPersists(ps, k + 1);
    } else {
      assert ps[..k] == ps;
    }
  }

  lemma MaxPrefixStep(ps: seq<string>)
    requires ps != []
    ensures MaxPrefix(ps).Raised? <==> MaxPrefix(ps[..|ps| - 1]).Raised? || PrefixKey(ps[|ps| - 1]).None?
    ensures MaxPrefix(ps).Ok? ==> MaxPrefix(ps).value.Some?
  {
  }

  /** get_max_prefix raises exactly when some prefix does not read as two
      numbers, and otherwise returns None exactly for no prefixes. */
  lemma {:induction false} MaxPrefixRaised(ps: seq<string>)
    ensures MaxPrefix(ps).Raised? <==> exists i :: 0 <= i < |ps| && PrefixKey(ps[i]).None?
    ensures MaxPrefix(ps).Ok? ==> (MaxPrefix(ps).value.None? <==> ps == [])
  {
    if ps != [] {
      var n := |ps| - 1;
      var front := ps[..n];
      MaxPrefixRaised(front);
      MaxPrefixStep(ps);
      assert forall j :: 0 <= j < n ==> front[j] == ps[j];
    }
  }

  /** m is a greatest prefix of ps and the first one. */
  predicate FirstGreatest(ps: seq<string>, m: string)
  {
    && (forall j :: 0 <= j < |ps| ==> !Below(m, ps[j]))
    && exists i :: 0 <= i < |ps| && ps[i] == m && forall j :: 0 <= j < i ==> Below(ps[j], m)
  }

  lemma GreatestStep(ps: seq<string>, b: string, p: string)
    requires FirstGreatest(ps, b) && PrefixKey(b).Some? && PrefixKey(p).Some?
    requires forall j :: 0 <= j < |ps| ==> PrefixKey(ps[j]).Some?
    ensures KeyLess(PrefixKey(b).value, PrefixKey(p).value) ==> FirstGreatest(ps + [p], p)
    ensures !KeyLess(PrefixKey(b).value, PrefixKey(p).value) ==> FirstGreatest(ps + [p], b)
  {
    var ws := ps + [p];
    var i :| 0 <= i < |ps| && ps[i] == b && forall j :: 0 <= j < i ==> Below(ps[j], b);
    assert forall j :: 0 <= j < |ps| ==> ws[j] == ps[j];
    if KeyLess(PrefixKey(b).value, PrefixKey(p).value) {
      assert forall j :: 0 <= j < |ps| ==> Below(ws[j], p);
      assert ws[|ps|] == p;
    } else {
      assert ws[i] == b;
    }
  }

  /** When get_max_prefix returns a prefix, no other prefix's (major, minor)
      exceeds it and every earlier prefix's falls short of it: it is the
      first greatest one. */
  lemma {:induction false} MaxPrefixGreatest(ps: seq<string>)
    requires MaxPrefix(ps).Ok? && MaxPrefix(ps).value.Some?
    ensures FirstGreatest(ps, MaxPrefix(ps).value.value)
  {
    var n := |ps| - 1;
    var prev := ps[..n];
    var p := ps[n];
    assert prev + [p] == ps;
    MaxPrefixRaised(prev);
    var r := MaxPrefix(prev);
    if r.value.Some? {
      MaxPrefixGreatest(prev);
      GreatestStep(prev, r.value.value, p);
    } else {
      assert [p][0] == p;
    }
  }

  // ---------------------------------------------------------------------------
  // The buildinfo tags (lines 78-90)
  // ---------------------------------------------------------------------------

  /** f"{prefix}.{patch}". */
  function EntryKey(prefix: string, patch: int): string
  {
    prefix + "." + PyStr(patch)
  }

  /** Different prefixes never share an entry key. */
  lemma EntryKeyInjective(p: string, n: int, q: string, m: int)
    requires EntryKey(p, n) == EntryKey(q, m)
    ensures p == q && n == m
  {
    PyStrHasNoDot(n);
    PyStrHasNoDot(m);
    RSplitJoin(p, PyStr(n));
    RSplitJoin(q, PyStr(m));
    PyIntOfPyStr(n);
    PyIntOfPyStr(m);
  }

  /** buildinfo after the loop of lines 79-82. */
  function Standard(h: seq<Slot<int>>): seq<Slot<seq<string>>>
  {
    if h == [] then []
    else
      var e := h[|h| - 1];
      Put(Standard(h[..|h| - 1]), EntryKey(e.key, e.value), [e.key, EntryKey(e.key, e.value)])
  }

  /** The standard entry of prefix entry e. */
  function StandardEntry(e: Slot<int>): Slot<seq<string>>
  {
    Slot(EntryKey(e.key, e.value), [e.key, EntryKey(e.key, e.value)])
  }

  /** The standard entries of h, one per prefix entry, in order. */
  function StandardOf(h: seq<Slot<int>>): (r: seq<Slot<seq<string>>>)
    ensures |r| == |h| && forall i :: 0 <= i < |h| ==> r[i] == StandardEntry(h[i])
  {
    seq(|h|, i requires 0 <= i < |h| => StandardEntry(h[i]))
  }

  /** The last prefix's entry key is not the key of any earlier one. */
  lemma FreshEntryKey(h: seq<Slot<int>>)
    requires IsDict(h) && h != []
    ensures forall i :: 0 <= i < |h| - 1 ==> StandardEntry(h[i]).key != StandardEntry(h[|h| - 1]).key
  {
    var n := |h| - 1;
    forall i | 0 <= i < n
      ensures StandardEntry(h[i]).key != StandardEntry(h[n]).key
    {
      if StandardEntry(h[i]).key == StandardEntry(h[n]).key {
        EntryKeyInjective(h[i].key, h[i].value, h[n].key, h[n].value);
      }
    }
  }

  lemma PutFresh(d: seq<Slot<seq<string>>>, e: Slot<seq<string>>)
    requires forall i :: 0 <= i < |d| ==> d[i].key != e.key
    ensures Put(d, e.key, e.value) == d + [e]
  {
  }


  /** A new prefix adds its standard entry at the end. */
  lemma StandardOfSnoc(h: seq<Slot<int>>)
    requires IsDict(h) && h != []
    ensures var n := |h| - 1;
            var e := StandardEntry(h[n]);
            Put(StandardOf(h[..n]), e.key, e.value) == StandardOf(h)
  {
    var n := |h| - 1;
    var front := h[..n];
    var prev := StandardOf(front);
    var e := StandardEntry(h[n]);
    FreshEntryKey(h);
    assert forall i :: 0 <= i < n ==> prev[i] == StandardEntry(h[i]) by {
      assert forall i :: 0 <= i < n ==> front[i] == h[i];
    }
    PutFresh(prev, e);
    SnocEqual(prev, e, StandardOf(h));
  }

  /** On a dict of prefixes, the loop adds one entry per prefix, in the same
      order, keyed "prefix.patch" and tagged [prefix, "prefix.patch"]. */
  lemma {:induction false} StandardIsStandardOf(h: seq<Slot<int>>)
    requires IsDict(h)
    ensures Standard(h) == StandardOf(h)
  {
    if h != [] {
      var n := |h| - 1;
      assert IsDict(h[..n]);
      StandardIsStandardOf(h[..n]);
      StandardOfSnoc(h);
    }
  }

  lemma StandardEntryAt(h: seq<Slot<int>>)
    requires IsDict(h)
    ensures |Standard(h)| == |h|
    ensures forall i :: 0 <= i < |h| ==> Standard(h)[i] == StandardEntry(h[i])
  {
    StandardIsStandardOf(h);
  }

  /** Distinct prefixes give distinct entry keys. */
  lemma StandardIsDict(h: seq<Slot<int>>)
    requires IsDict(h)
    ensures IsDict(Standard(h))
  {
    StandardEntryAt(h);
    var d := Standard(h);
    forall i, j | 0 <= i < j < |d|
      ensures d[i].key != d[j].key
    {
      if d[i].key == d[j].key {
        EntryKeyInjective(h[i].key, h[i].value, h[j].key, h[j].value);
      }
    }
  }

  lemma StandardEntries(h: seq<Slot<int>>)
    requires IsDict(h)
    ensures |Standard(h)| == |h| && IsDict(Standard(h))
    ensures forall i :: 0 <= i < |h| ==> Standard(h)[i] == StandardEntry(h[i])
  {
    StandardEntryAt(h);
    StandardIsDict(h);
  }

  /** buildinfo[k]["tags"].append(tag); None where k is missing and the
      lookup raises KeyError. */
  function AppendTag(d: seq<Slot<seq<string>>>, k: string, tag: string): Outcome<seq<Slot<seq<string>>>>
  {
    match Find(d, k)
    case None => Raised
    case Some(i) => Ok(d[i := Slot(k, d[i].value + [tag])])
  }

  /** buildinfo.setdefault(k, {"tags": []}). */
  function SetDefault(d: seq<Slot<seq<string>>>, k: string): seq<Slot<seq<string>>>
  {
    if Find(d, k).Some? then d else d + [Slot(k, [])]
  }

  /** `if stable_version:` on a string. */
  predicate Truthy(s: Option<string>)
  {
    s.Some? && s.value != ""
  }

  /** buildinfo after line 87: the standard entries with "latest" added to
      the entry of the greatest prefix's highest patch. Raised where
      get_max_prefix raises, and where there is no prefix at all (the lookup
      highest_version_per_prefix[None] raises KeyError). */
  function WithLatest(h: seq<Slot<int>>): Outcome<seq<Slot<seq<string>>>>
  {
    match MaxPrefix(Keys(h))
    case Raised => Raised
    case Ok(None) => Raised
    case Ok(Some(p)) =>
      var maxPatch := h[Find(h, p).value].value;
      AppendTag(Standard(h), EntryKey(p, maxPatch), "latest")
  }

  /** buildinfo after line 90, from highest_version_per_prefix h and
      stable_version. */
  function Tagging(h: seq<Slot<int>>, stable: Option<string>): Outcome<seq<Slot<seq<string>>>>
  {
    match WithLatest(h)
    case Raised => Raised
    case Ok(withLatest) =>
      if Truthy(stable) then AppendTag(SetDefault(withLatest, stable.value), stable.value, "stable")
      else Ok(withLatest)
  }

  /** Lines 78-90. */
  method BuildTags(h: seq<Slot<int>>, stable: Option<string>) returns (r: Outcome<seq<Slot<seq<string>>>>)
    ensures r == Tagging(h, stable)
  {
    var buildinfo: seq<Slot<seq<string>>> := [];
    var i := 0;
    while i < |h|
      invariant 0 <= i <= |h|
      invariant buildinfo == Standard(h[..i])
    {
      assert h[..i + 1][..i] == h[..i];
      var prefix := h[i].key;
      var patch := h[i].value;
      buildinfo := Put(buildinfo, EntryKey(prefix, patch), [prefix, EntryKey(prefix, patch)]);
      i := i + 1;
    }
    assert h[..i] == h;
    var maxPrefix := GetMaxPrefix(Keys(h));
    if maxPrefix.Raised? || maxPrefix.value.None? {
      return Raised;
    }
    var p := maxPrefix.value.value;
    var maxPatch := h[Find(h, p).value].value;
    var withLatest := AppendTag(buildinfo, EntryKey(p, maxPatch), "latest");
    if withLatest.Raised? {
      return Raised;
    }
    buildinfo := withLatest.value;
    if Truthy(stable) {
      buildinfo := SetDefault(buildinfo, stable.value);
      r := AppendTag(buildinfo, stable.value, "stable");
    } else {
      r := Ok(buildinfo);
    }
  }

  /** The tags of prefix entry e once "latest" went to the entry of prefix m. */
  function LatestTags(e: Slot<int>, m: string): seq<string>
  {
    [e.key, EntryKey(e.key, e.value)] + (if e.key == m then ["latest"] else [])
  }

  /** Appending a tag to a key that is present changes that entry alone. */
  lemma AppendTagAt(d: seq<Slot<seq<string>>>, i: nat, tag: string)
    requires IsDict(d) && i < |d|
    ensures AppendTag(d, d[i].key, tag) == Ok(d[i := Slot(d[i].key, d[i].value + [tag])])
    ensures IsDict(d[i := Slot(d[i].key, d[i].value + [tag])])
  {
    FindIn(d, i);
    var d' := d[i := Slot(d[i].key, d[i].value + [tag])];
    assert forall j :: 0 <= j < |d| ==> d'[j].key == d[j].key;
  }

  /** Line 87 on the standard entries: only the entry of the greatest prefix
      m gains "latest", at the end of its tags. */
  lemma WithLatestShape(h: seq<Slot<int>>)
    requires IsDict(h) && MaxPrefix(Keys(h)).Ok? && MaxPrefix(Keys(h)).value.Some?
    ensures WithLatest(h).Ok? && LatestAs(h, MaxPrefix(Keys(h)).value.value, WithLatest(h).value)
  {
    var m := MaxPrefix(Keys(h)).value.value;
    var f := Find(h, m).value;
    var base := Standard(h);
    StandardEntries(h);
    assert base[f].key == EntryKey(m, h[f].value);
    AppendTagAt(base, f, "latest");
    var w := base[f := Slot(base[f].key, base[f].value + ["latest"])];
    assert WithLatest(h) == Ok(w);
    forall i | 0 <= i < |h|
      ensures w[i] == Slot(EntryKey(h[i].key, h[i].value), LatestTags(h[i], m))
    {
      var k := EntryKey(h[i].key, h[i].value);
      assert base[i] == Slot(k, [h[i].key, k]);
      if i == f {
        assert LatestTags(h[i], m) == [h[i].key, k] + ["latest"];
      } else {
        assert h[i].key != m;
        assert LatestTags(h[i], m) == [h[i].key, k];
      }
    }
  }

  /** Lines 89-90 on any dict w: setdefault and append leave every other
      entry alone, add "stable" last to the entry keyed s, and create that
      entry with tags ["stable"] when it was missing. */
  lemma StableShape(w: seq<Slot<seq<string>>>, s: string)
    requires IsDict(w)
    ensures var o := AppendTag(SetDefault(w, s), s, "stable");
            && o.Ok? && IsDict(o.value)
            && |o.value| == |w| + (if Find(w, s).None? then 1 else 0)
            && (forall i :: 0 <= i < |w| ==>
                  o.value[i] == Slot(w[i].key, w[i].value + (if w[i].key == s then ["stable"] else [])))
            && (Find(w, s).None? ==> o.value[|w|] == Slot(s, ["stable"]))
  {
    var d := SetDefault(w, s);
    var found := Find(w, s);
    if found.Some? {
      var j := found.value;
      assert d == w;
      AppendTagAt(w, j, "stable");
      var o := w[j := Slot(s, w[j].value + ["stable"])];
      forall i | 0 <= i < |w|
        ensures o[i] == Slot(w[i].key, w[i].value + (if w[i].key == s then ["stable"] else []))
      {
        if i != j {
          assert w[i].key != s;
          assert w[i].value + [] == w[i].value;
        }
      }
    } else {
      assert d == w + [Slot(s, [])];
      assert IsDict(d);
      AppendTagAt(d, |w|, "stable");
      assert d[|w|].value + ["stable"] == ["stable"];
      var o := d[|w| := Slot(s, ["stable"])];
      forall i | 0 <= i < |w|
        ensures o[i] == Slot(w[i].key, w[i].value + (if w[i].key == s then ["stable"] else []))
      {
        assert w[i].key != s;
        assert w[i].value + [] == w[i].value;
      }
    }
  }

  /** Every prefix of a scan that get_max_prefix accepts holds a '.'. */
  lemma PrefixKeyHasDot(p: string)
    requires PrefixKey(p).Some?
    ensures '.' in p
  {
  }

  /** The buildinfo dict line 90 leaves, given the greatest prefix m: the
      standard entries in the order of the prefixes, "latest" added to the
      entry of m, and "stable" added to the entry keyed stable_version, which
      is created last with tags ["stable"] when no prefix produced it. */
  predicate TaggedAs(h: seq<Slot<int>>, m: string, stable: Option<string>, out: seq<Slot<seq<string>>>)
  {
    var extra := Truthy(stable) && forall i :: 0 <= i < |h| ==> EntryKey(h[i].key, h[i].value) != stable.value;
    && IsDict(out)
    && |out| == |h| + (if extra then 1 else 0)
    && (forall i :: 0 <= i < |h| ==>
          out[i] == Slot(EntryKey(h[i].key, h[i].value),
                         LatestTags(h[i], m) +
                         (if Truthy(stable) && stable.value == EntryKey(h[i].key, h[i].value) then ["stable"] else [])))
    && (extra ==> out[|h|] == Slot(stable.value, ["stable"]))
  }

  /** The dict after line 87, as WithLatestShape gives it. */
  predicate LatestAs(h: seq<Slot<int>>, m: string, w: seq<Slot<seq<string>>>)
  {
    && |w| == |h| && IsDict(w)
    && forall i :: 0 <= i < |h| ==> w[i] == Slot(EntryKey(h[i].key, h[i].value), LatestTags(h[i], m))
  }

  lemma StableOnLatest(h: seq<Slot<int>>, m: string, w: seq<Slot<seq<string>>>, st: string)
    requires LatestAs(h, m, w) && st != ""
    ensures AppendTag(SetDefault(w, st), st, "stable").Ok?
    ensures TaggedAs(h, m, Some(st), AppendTag(SetDefault(w, st), st, "stable").value)
  {
    StableShape(w, st);
    var out := AppendTag(SetDefault(w, st), st, "stable").value;
    assert Find(w, st).None? <==> forall i :: 0 <= i < |h| ==> EntryKey(h[i].key, h[i].value) != st by {
      assert forall i :: 0 <= i < |h| ==> w[i].key == EntryKey(h[i].key, h[i].value);
    }
    forall i | 0 <= i < |h|
      ensures out[i] == Slot(EntryKey(h[i].key, h[i].value),
                             LatestTags(h[i], m) + (if st == EntryKey(h[i].key, h[i].value) then ["stable"] else []))
    {
      assert w[i] == Slot(EntryKey(h[i].key, h[i].value), LatestTags(h[i], m));
    }
  }

  lemma QuietOnLatest(h: seq<Slot<int>>, m: string, w: seq<Slot<seq<string>>>, stable: Option<string>)
    requires LatestAs(h, m, w) && !Truthy(stable)
    ensures TaggedAs(h, m, stable, w)
  {
    forall i | 0 <= i < |h|
      ensures w[i] == Slot(EntryKey(h[i].key, h[i].value), LatestTags(h[i], m) + [])
    {
      assert LatestTags(h[i], m) + [] == LatestTags(h[i], m);
    }
  }

  /** What Tagging leaves when it does not raise. */
  lemma TaggingShape(h: seq<Slot<int>>, stable: Option<string>)
    requires IsDict(h) && Tagging(h, stable).Ok?
    ensures TaggedAs(h, MaxPrefix(Keys(h)).value.value, stable, Tagging(h, stable).value)
  {
    MaxPrefixRaised(Keys(h));
    WithLatestShape(h);
    var m := MaxPrefix(Keys(h)).value.value;
    var w := WithLatest(h).value;
    assert LatestAs(h, m, w);
    if Truthy(stable) {
      StableOnLatest(h, m, w, stable.value);
    } else {
      QuietOnLatest(h, m, w, stable);
    }
  }

  /** Every prefix reads as two numbers. */
  predicate Accepted(h: seq<Slot<int>>)
  {
    forall i :: 0 <= i < |h| ==> PrefixKey(h[i].key).Some?
  }

  /** Neither of the words "latest" and "stable" holds a '.'. */
  lemma WordsHaveNoDot()
    ensures '.' !in "latest" && '.' !in "stable"
  {
    assert forall i :: 0 <= i < 6 ==> "latest"[i] != '.' && "stable"[i] != '.';
  }

  /** An accepted prefix and its entry key hold a '.', so neither is one of
      the words "latest" and "stable". */
  lemma NotReserved(e: Slot<int>)
    requires PrefixKey(e.key).Some?
    ensures e.key != "latest" && e.key != "stable"
    ensures EntryKey(e.key, e.value) != "latest" && EntryKey(e.key, e.value) != "stable"
  {
    PrefixKeyHasDot(e.key);
    WordsHaveNoDot();
    var k := EntryKey(e.key, e.value);
    assert k[|e.key|] == '.';
  }

  /** "latest" is among an entry's tags exactly when its prefix is m. */
  lemma LatestInTags(e: Slot<int>, m: string, extra: seq<string>)
    requires PrefixKey(e.key).Some? && "latest" !in extra
    ensures "latest" in LatestTags(e, m) + extra <==> e.key == m
    ensures e.key == m ==> [m, EntryKey(m, e.value), "latest"] <= LatestTags(e, m) + extra
  {
    NotReserved(e);
    var t := LatestTags(e, m) + extra;
    if e.key == m {
      assert t[2] == "latest";
    } else {
      assert t == [e.key, EntryKey(e.key, e.value)] + extra;
    }
  }

  lemma LatestPlaced(h: seq<Slot<int>>, m: string, stable: Option<string>, out: seq<Slot<seq<string>>>)
    requires TaggedAs(h, m, stable, out) && Accepted(h)
    ensures forall i :: 0 <= i < |out| ==> ("latest" in out[i].value <==> i < |h| && h[i].key == m)
    ensures forall i :: 0 <= i < |h| && h[i].key == m ==> [m, EntryKey(m, h[i].value), "latest"] <= out[i].value
  {
    forall i | 0 <= i < |out|
      ensures "latest" in out[i].value <==> i < |h| && h[i].key == m
      ensures i < |h| && h[i].key == m ==> [m, EntryKey(m, h[i].value), "latest"] <= out[i].value
    {
      if i < |h| {
        var extra := if Truthy(stable) && stable.value == EntryKey(h[i].key, h[i].value) then ["stable"] else [];
        assert out[i].value == LatestTags(h[i], m) + extra;
        LatestInTags(h[i], m, extra);
      } else {
        assert out[i].value == ["stable"];
      }
    }
  }

  lemma StableNotInLatestTags(e: Slot<int>, m: string)
    requires PrefixKey(e.key).Some?
    ensures "stable" !in LatestTags(e, m)
  {
    NotReserved(e);
  }

  lemma EndsWithStable(t: seq<string>)
    ensures |t + ["stable"]| > 0 && (t + ["stable"])[|t + ["stable"]| - 1] == "stable"
  {
  }

  lemma StablePlaced(h: seq<Slot<int>>, m: string, stable: Option<string>, out: seq<Slot<seq<string>>>)
    requires TaggedAs(h, m, stable, out) && Accepted(h)
    ensures Truthy(stable) ==> exists i :: 0 <= i < |out| && out[i].key == stable.value
                                  && |out[i].value| > 0 && out[i].value[|out[i].value| - 1] == "stable"
    ensures Truthy(stable) && (forall i :: 0 <= i < |h| ==> EntryKey(h[i].key, h[i].value) != stable.value) ==>
              exists i :: 0 <= i < |out| && out[i] == Slot(stable.value, ["stable"])
    ensures !Truthy(stable) ==> forall i :: 0 <= i < |out| ==> "stable" !in out[i].value
  {
    if Truthy(stable) {
      var st := stable.value;
      if i :| 0 <= i < |h| && EntryKey(h[i].key, h[i].value) == st {
        var t := LatestTags(h[i], m);
        assert out[i] == Slot(st, t + ["stable"]);
        EndsWithStable(t);
      } else {
        assert out[|h|] == Slot(st, ["stable"]);
      }
    } else {
      forall i | 0 <= i < |out|
        ensures "stable" !in out[i].value
      {
        StableNotInLatestTags(h[i], m);
        assert out[i].value == LatestTags(h[i], m) + [];
      }
    }
  }

  /** Tagging never raises on a scan whose prefixes it accepted. */
  lemma TaggingAccepted(h: seq<Slot<int>>, stable: Option<string>)
    requires IsDict(h) && Tagging(h, stable).Ok?
    ensures Accepted(h)
  {
    MaxPrefixRaised(Keys(h));
    forall i | 0 <= i < |h|
      ensures PrefixKey(h[i].key).Some?
    {
      assert Keys(h)[i] == h[i].key;
    }
  }

  /** Exactly one entry carries "latest": the entry of the first greatest
      prefix's highest patch, where "latest" follows the two standard tags. */
  lemma LatestOnce(h: seq<Slot<int>>, stable: Option<string>)
    requires IsDict(h) && Tagging(h, stable).Ok?
    ensures var out := Tagging(h, stable).value;
            var m := MaxPrefix(Keys(h)).value.value;
            && FirstGreatest(Keys(h), m)
            && (forall i :: 0 <= i < |out| ==> ("latest" in out[i].value <==> i < |h| && h[i].key == m))
            && exists i :: 0 <= i < |h| && i < |out| && h[i].key == m && [m, EntryKey(m, h[i].value), "latest"] <= out[i].value
  {
    var out := Tagging(h, stable).value;
    var m := MaxPrefix(Keys(h)).value.value;
    MaxPrefixGreatest(Keys(h));
    TaggingShape(h, stable);
    TaggingAccepted(h, stable);
    LatestPlaced(h, m, stable, out);
    var f :| 0 <= f < |Keys(h)| && Keys(h)[f] == m;
    assert h[f].key == m && [m, EntryKey(m, h[f].value), "latest"] <= out[f].value;
  }

  /** With a stable version, its entry exists afterwards and ends with
      "stable"; when no prefix produced it, its tags are exactly ["stable"].
      Without one, no entry carries "stable". */
  lemma StableTagged(h: seq<Slot<int>>, stable: Option<string>)
    requires IsDict(h) && Tagging(h, stable).Ok?
    ensures var out := Tagging(h, stable).value;
            && (Truthy(stable) ==> exists i :: 0 <= i < |out| && out[i].key == stable.value
                                    && |out[i].value| > 0 && out[i].value[|out[i].value| - 1] == "stable")
            && (Truthy(stable) && (forall i :: 0 <= i < |h| ==> EntryKey(h[i].key, h[i].value) != stable.value) ==>
                  exists i :: 0 <= i < |out| && out[i] == Slot(stable.value, ["stable"]))
            && (!Truthy(stable) ==> forall i :: 0 <= i < |out| ==> "stable" !in out[i].value)
  {
    TaggingShape(h, stable);
    TaggingAccepted(h, stable);
    StablePlaced(h, MaxPrefix(Keys(h)).value.value, stable, Tagging(h, stable).value);
  }

  /** loop() raises in the tagging step exactly when there are no prefixes
      or some prefix does not read as two numbers. */
  lemma TaggingRaised(h: seq<Slot<int>>, stable: Option<string>)
    requires IsDict(h)
    ensures Tagging(h, stable).Raised? <==> h == [] || exists i :: 0 <= i < |h| && PrefixKey(h[i].key).None?
  {
    MaxPrefixRaised(Keys(h));
    if MaxPrefix(Keys(h)).Ok? && MaxPrefix(Keys(h)).value.Some? {
      WithLatestShape(h);
      if Truthy(stable) {
        StableShape(WithLatest(h).value, stable.value);
      }
    }
    if exists i :: 0 <= i < |h| && PrefixKey(h[i].key).None? {
      var i :| 0 <= i < |h| && PrefixKey(h[i].key).None?;
      assert Keys(h)[i] == h[i].key;
    }
  }

  // ---------------------------------------------------------------------------
  // has_diff (lines 38-46)
  // ---------------------------------------------------------------------------

  /** The "tags" of every entry of the buildinfo.json on disk. */
  type TagMap = map<string, seq<string>>

  /** A dict as a map. */
  function ToMap(d: seq<Slot<seq<string>>>): TagMap
  {
    if d == [] then map[] else ToMap(d[..|d| - 1])[d[|d| - 1].key := d[|d| - 1].value]
  }

  /** The prev tags differ from the new dict: another size, a new key
      missing, or a key whose tags changed. */
  predicate Differs(prev: TagMap, d: seq<Slot<seq<string>>>)
  {
    |prev| != |d| || exists i :: 0 <= i < |d| && (d[i].key !in prev || prev[d[i].key] != d[i].value)
  }

  /** has_diff, with the file's tags as prev. */
  method HasDiff(prev: TagMap, d: seq<Slot<seq<string>>>) returns (r: bool)
    ensures r <==> Differs(prev, d)
  {
    if |prev| != |d| {
      return true;
    }
    var i := 0;
    while i < |d|
      invariant 0 <= i <= |d|
      invariant forall j :: 0 <= j < i ==> d[j].key in prev && prev[d[j].key] == d[j].value
    {
      var version := d[i];
      if version.key !in prev || prev[version.key] != version.value {
        return true;
      }
      i := i + 1;
    }
    return false;
  }

  lemma {:induction false} ToMapKeys(d: seq<Slot<seq<string>>>)
    ensures forall k :: k in ToMap(d) <==> k in Keys(d)
  {
    if d != [] {
      var n := |d| - 1;
      ToMapKeys(d[..n]);
      assert Keys(d) == Keys(d[..n]) + [d[n].key];
    }
  }

  lemma {:induction false} ToMapSize(d: seq<Slot<seq<string>>>)
    requires IsDict(d)
    ensures |ToMap(d)| == |d|
  {
    if d != [] {
      var n := |d| - 1;
      var front := d[..n];
      ToMapSize(front);
      ToMapKeys(front);
      assert d[n].key !in Keys(front);
    }
  }

  lemma {:induction false} ToMapValues(d: seq<Slot<seq<string>>>)
    requires IsDict(d)
    ensures forall i :: 0 <= i < |d| ==> d[i].key in ToMap(d) && ToMap(d)[d[i].key] == d[i].value
  {
    if d != [] {
      var n := |d| - 1;
      var front := d[..n];
      ToMapValues(front);
      forall i | 0 <= i < n
        ensures d[i].key in ToMap(d) && ToMap(d)[d[i].key] == d[i].value
      {
        assert front[i] == d[i];
      }
    }
  }

  lemma ToMapEntries(d: seq<Slot<seq<string>>>)
    requires IsDict(d)
    ensures forall k :: k in ToMap(d) <==> k in Keys(d)
    ensures |ToMap(d)| == |d|
    ensures forall i :: 0 <= i < |d| ==> d[i].key in ToMap(d) && ToMap(d)[d[i].key] == d[i].value
  {
    ToMapKeys(d);
    ToMapSize(d);
    ToMapValues(d);
  }

  /** A dict never differs from its own tags. */
  lemma NoDiffSelf(d: seq<Slot<seq<string>>>)
    requires IsDict(d)
    ensures !Differs(ToMap(d), d)
  {
    ToMapEntries(d);
  }

  /** has_diff ignores nothing but sha1: when it reports no difference, the
      prev tags are exactly the new dict's. */
  lemma NoDiffSame(prev: TagMap, d: seq<Slot<seq<string>>>)
    requires IsDict(d) && !Differs(prev, d)
    ensures prev == ToMap(d)
  {
    ToMapEntries(d);
    var keys := ToMap(d).Keys;
    assert keys <= prev.Keys;
    assert prev.Keys == keys + (prev.Keys - keys);
    assert |prev.Keys - keys| == 0;
  }

  // ---------------------------------------------------------------------------
  // One run of loop() up to the diff check (lines 62-93)
  // ---------------------------------------------------------------------------

  /** What the run goes on to do: nothing, or write this buildinfo and the
      README built from it. */
  datatype Cycle = Unchanged | Rewrite(buildinfo: seq<Slot<seq<string>>>)

  function Run(rs: seq<Record>, prev: TagMap): Outcome<Cycle>
  {
    match Scan(rs)
    case Raised => Raised
    case Ok(st) =>
      match Tagging(st.highest, st.stable)
      case Raised => Raised
      case Ok(b) => Ok(if Differs(prev, b) then Rewrite(b) else Unchanged)
  }

  method Loop(rs: seq<Record>, prev: TagMap) returns (r: Outcome<Cycle>)
    ensures r == Run(rs, prev)
  {
    var scan := ScanFeed(rs);
    if scan.Raised? {
      return Raised;
    }
    var buildinfo := BuildTags(scan.value.highest, scan.value.stable);
    if buildinfo.Raised? {
      return Raised;
    }
    var diff := HasDiff(prev, buildinfo.value);
    if !diff {
      return Ok(Unchanged);
    }
    return Ok(Rewrite(buildinfo.value));
  }

  /** A run that rewrites buildinfo.json is followed, on the same feed, by a
      run that finds nothing to do. */
  lemma RunTwice(rs: seq<Record>, prev: TagMap)
    requires Run(rs, prev).Ok? && Run(rs, prev).value.Rewrite?
    ensures Run(rs, ToMap(Run(rs, prev).value.buildinfo)) == Ok(Unchanged)
  {
    var st := Scan(rs).value;
    ScanHighest(rs);
    TaggingShape(st.highest, st.stable);
    NoDiffSelf(Run(rs, prev).value.buildinfo);
  }

  // ---------------------------------------------------------------------------
  // modify_readme (lines 26-35)
  // ---------------------------------------------------------------------------

  /** The tags of every entry, in the dict's order. */
  function TagsOf(d: seq<Slot<seq<string>>>): (r: seq<seq<string>>)
    ensures |r| == |d| && forall i :: 0 <= i < |d| ==> r[i] == d[i].value
  {
    seq(|d|, i requires 0 <= i < |d| => d[i].value)
  }

  /** generated_content: a newline, then one bullet line per entry. */
  function GeneratedContent(d: seq<Slot<seq<string>>>): string
  {
    "\n" + Block(TagsOf(d))
  }

  lemma {:induction false} BlockSnoc(e: seq<seq<string>>, x: seq<string>)
    ensures Block(e + [x]) == Block(e) + TagLine(x)
  {
    if e != [] {
      assert (e + [x])[1..] == e[1..] + [x];
      BlockSnoc(e[1..], x);
    } else {
      assert Block([x]) == TagLine(x) + Block([]);
    }
  }

  /** The span the pattern st.*en matches with DOTALL (modify_readme uses the
      two README markers): the first start marker, and the last end marker
      that begins after it. None when there is no such pair and re.sub leaves
      the text alone. */
  function MatchSpan(s: string, st: string, en: string): (r: Option<(nat, nat)>)
    ensures r.Some? ==> OccursAt(s, st, r.value.0) && OccursAt(s, en, r.value.1)
    ensures r.Some? ==> r.value.0 + |st| <= r.value.1
  {
    match IndexOf(s, st)
    case None => None
    case Some(a) =>
      match LastIndexOf(s, en)
      case None => None
      case Some(b) => if a + |st| <= b then Some((a, b)) else None
  }

  /** re.sub of the two markers and everything between them by the markers
      around g. */
  function ReSub(s: string, g: string, st: string, en: string): string
  {
    match MatchSpan(s, st, en)
    case None => s
    case Some((a, b)) => s[..a] + st + g + en + s[b + |en|..]
  }

  /** The text between the markers of a match. */
  function Extract(s: string, st: string, en: string): Option<string>
  {
    match MatchSpan(s, st, en)
    case None => None
    case Some((a, b)) => Some(s[a + |st|..b])
  }

  /** modify_readme on the README text: the new README. */
  method ModifyReadme(d: seq<Slot<seq<string>>>, readme: string) returns (r: string)
    ensures r == ReSub(readme, GeneratedContent(d), GitEdits.TagsStart, GitEdits.TagsEnd)
  {
    var generated := "\n";
    assert generated == GeneratedContent(d[..0]);
    var i := 0;
    while i < |d|
      invariant 0 <= i <= |d|
      invariant generated == GeneratedContent(d[..i])
    {
      GeneratedContentSnoc(d, i);
      generated := generated + "* " + Join(QuoteAll(d[i].value), ", ") + "\n";
      i := i + 1;
    }
    PrefixWhole(d);
    r := ReSub(readme, generated, GitEdits.TagsStart, GitEdits.TagsEnd);
  }

  /** One more entry adds its bullet line to the generated text. */
  lemma GeneratedContentSnoc(d: seq<Slot<seq<string>>>, i: nat)
    requires i < |d|
    ensures GeneratedContent(d[..i + 1]) == GeneratedContent(d[..i]) + TagLine(d[i].value)
  {
    assert TagsOf(d[..i + 1]) == TagsOf(d[..i]) + [d[i].value];
    BlockSnoc(TagsOf(d[..i]), d[i].value);
  }

  /** Occurrences in two texts with a common suffix correspond. */
  lemma ShiftOccurs(x: string, y: string, pat: string, a: nat, b: nat, k: nat)
    requires a <= |x| && b <= |y| && x[a..] == y[b..]
    ensures OccursAt(x, pat, a + k) <==> OccursAt(y, pat, b + k)
  {
    assert |x| - a == |y| - b;
    if a + k + |pat| <= |x| {
      forall j | a + k <= j < a + k + |pat|
        ensures x[j] == y[j - a + b]
      {
        assert x[a..][j - a] == y[b..][j - a];
      }
      assert x[a + k..a + k + |pat|] == y[b + k..b + k + |pat|];
    }
  }

  /** A text ending in the suffix that follows the last occurrence of pat in
      another has its last occurrence where that suffix begins. */
  lemma LastInSuffix(x: string, y: string, pat: string, b: nat, c: nat)
    requires LastIndexOf(x, pat) == Some(b) && c <= |y| && y[c..] == x[b..]
    ensures LastIndexOf(y, pat) == Some(c)
  {
    ShiftOccurs(y, x, pat, c, b, 0);
    forall j | c < j
      ensures !OccursAt(y, pat, j)
    {
      ShiftOccurs(y, x, pat, c, b, j - c);
    }
    assert OccursAt(y, pat, c + 0);
  }

  /** The splice of ReSub agrees with the text up to the end of the start
      marker, and from the end marker on. */
  lemma SpliceAgrees(s: string, st: string, g: string, en: string, a: nat, b: nat)
    requires OccursAt(s, st, a) && OccursAt(s, en, b) && a + |st| <= b
    ensures var out := s[..a] + st + g + en + s[b + |en|..];
            && out[..a + |st|] == s[..a + |st|]
            && out[a + |st| + |g|..] == s[b..]
  {
    var rest := s[b + |en|..];
    var len := a + |st|;
    SpliceEnds(s[..a], st, g, en, rest);
    assert s[..len] == s[..a] + s[a..len];
    assert s[b..] == s[b..b + |en|] + rest;
  }

  /** The two searches a match is made of. */
  lemma MatchSpanParts(s: string, st: string, en: string)
    requires MatchSpan(s, st, en).Some?
    ensures IndexOf(s, st) == Some(MatchSpan(s, st, en).value.0)
    ensures LastIndexOf(s, en) == Some(MatchSpan(s, st, en).value.1)
  {
  }

  /** A start marker first found at a and an end marker last found at b
      after it make the match (a, b). */
  lemma MatchSpanIs(s: string, st: string, en: string, a: nat, b: nat)
    requires IndexOf(s, st) == Some(a) && LastIndexOf(s, en) == Some(b)
    requires a + |st| <= b
    ensures MatchSpan(s, st, en) == Some((a, b))
  {
  }

  /** After the substitution the pattern matches again, from the same start
      marker to the end marker that now follows g; the text before the match
      and after it are as they were. */
  lemma ReSubSpan(s: string, g: string, st: string, en: string, a: nat, b: nat)
    requires MatchSpan(s, st, en) == Some((a, b))
    ensures MatchSpan(ReSub(s, g, st, en), st, en) == Some((a, a + |st| + |g|))
    ensures ReSub(s, g, st, en)[..a] == s[..a]
    ensures ReSub(s, g, st, en)[a + |st| + |g| + |en|..] == s[b + |en|..]
  {
    MatchSpanParts(s, st, en);
    var out := s[..a] + st + g + en + s[b + |en|..];
    assert ReSub(s, g, st, en) == out;
    SpliceSearches(s, st, g, en, a, b);
    MatchSpanIs(out, st, en, a, a + |st| + |g|);
  }

  /** The searches for the markers on the spliced text find the start marker
      where it was and the end marker right after g; the text outside is kept. */
  lemma SpliceSearches(s: string, st: string, g: string, en: string, a: nat, b: nat)
    requires IndexOf(s, st) == Some(a) && LastIndexOf(s, en) == Some(b) && a + |st| <= b
    ensures var out := s[..a] + st + g + en + s[b + |en|..];
            && IndexOf(out, st) == Some(a)
            && LastIndexOf(out, en) == Some(a + |st| + |g|)
            && out[..a] == s[..a]
            && out[a + |st| + |g| + |en|..] == s[b + |en|..]
  {
    var out := s[..a] + st + g + en + s[b + |en|..];
    var len := a + |st|;
    var c := len + |g|;
    SpliceAgrees(s, st, g, en, a, b);
    GitEdits.FirstOccurrenceInPrefix(s, out, st, len);
    LastInSuffix(s, out, en, b, c);
    assert out[..a] == out[..len][..a];
    assert s[..a] == s[..len][..a];
    assert out[c + |en|..] == out[c..][|en|..];
    assert s[b + |en|..] == s[b..][|en|..];
  }

  /** After the substitution the markers enclose exactly g. */
  lemma ReSubExtract(s: string, g: string, st: string, en: string)
    requires MatchSpan(s, st, en).Some?
    ensures Extract(ReSub(s, g, st, en), st, en) == Some(g)
  {
    var a := MatchSpan(s, st, en).value.0;
    ReSubSpan(s, g, st, en, a, MatchSpan(s, st, en).value.1);
    var out := ReSub(s, g, st, en);
    assert out[a + |st|..a + |st| + |g|] == g;
  }

  /** A README without the markers in order is left as it is, and one with
      them keeps them. */
  lemma ReSubMatches(s: string, g: string, st: string, en: string)
    ensures MatchSpan(s, st, en).None? ==> ReSub(s, g, st, en) == s
    ensures MatchSpan(ReSub(s, g, st, en), st, en).Some? <==> MatchSpan(s, st, en).Some?
  {
    if MatchSpan(s, st, en).Some? {
      ReSubSpan(s, g, st, en, MatchSpan(s, st, en).value.0, MatchSpan(s, st, en).value.1);
    }
  }

  /** Rewriting the README twice with the same tags changes nothing more. */
  lemma ReSubIdempotent(s: string, g: string, st: string, en: string)
    ensures ReSub(ReSub(s, g, st, en), g, st, en) == ReSub(s, g, st, en)
  {
    if MatchSpan(s, st, en).Some? {
      var (a, b) := MatchSpan(s, st, en).value;
      ReSubSpan(s, g, st, en, a, b);
      var out := ReSub(s, g, st, en);
      var c := a + |st| + |g|;
      assert out[..a] == s[..a];
      assert out[c + |en|..] == s[b + |en|..];
    }
  }

  /** The generated text, split at newlines: an empty line after the start
      marker, then one bullet per entry in the dict's order, then the empty
      remainder before the end marker. */
  lemma GeneratedLines(d: seq<Slot<seq<string>>>)
    requires TagsAvoid(TagsOf(d), '\n')
    ensures Split(GeneratedContent(d), '\n') == [""] + LineTexts(TagsOf(d)) + [""]
  {
    SplitLeading(Block(TagsOf(d)), '\n');
    BlockLines(TagsOf(d));
  }
}
