/** The part of github.com/blang/semver the watchdog uses: a version made of
    major, minor and patch numbers, its total order (LT, EQ), its "M.m.p"
    rendering (String), parsing (Make) and sorting (Sort). Prerelease and
    build metadata are not part of this model. */
module Semver {
  import opened Wrappers
  import opened Strings

  datatype Version = Version(major: nat, minor: nat, patch: nat)

  /** Go's zero value semver.Version{}, i.e. 0.0.0. */
  const Zero := Version(0, 0, 0)

  /** Version.LT: lexicographic on (major, minor, patch). */
  predicate Less(a: Version, b: Version)
  {
    a.major < b.major
    || (a.major == b.major && a.minor < b.minor)
    || (a.major == b.major && a.minor == b.minor && a.patch < b.patch)
  }

  predicate Leq(a: Version, b: Version) { a == b || Less(a, b) }

  /** The release line ("branch") of a version: equal major and minor. */
  predicate SameBranch(a: Version, b: Version) { a.major == b.major && a.minor == b.minor }

  /** a's release line comes strictly before b's. */
  predicate BranchLess(a: Version, b: Version)
  {
    a.major < b.major || (a.major == b.major && a.minor < b.minor)
  }

  /** Version.String(): "major.minor.patch". */
  function ToString(v: Version): string
  {
    NatToString(v.major) + "." + NatToString(v.minor) + "." + NatToString(v.patch)
  }

  /** fmt.Sprintf("%d.%d", v.Major, v.Minor): the key of a release line. */
  function BranchKey(v: Version): string
  {
    NatToString(v.major) + "." + NatToString(v.minor)
  }

  /** The rendering is the three numerals joined by dots, and the key the
      first two. */
  lemma RenderingsAreJoins(v: Version)
    ensures ToString(v) == Join([NatToString(v.major), NatToString(v.minor), NatToString(v.patch)], ".")
    ensures BranchKey(v) == Join([NatToString(v.major), NatToString(v.minor)], ".")
  {
    var a, b, c := NatToString(v.major), NatToString(v.minor), NatToString(v.patch);
    assert [a, b, c][1..] == [b, c];
    assert [b, c][1..] == [c];
    assert [a, b][1..] == [b];
    assert Join([b, c], ".") == b + "." + c;
    assert a + "." + (b + "." + c) == a + "." + b + "." + c;
  }

  /** fmt.Sprintf("%d", v.Major). */
  function MajorKey(v: Version): string
  {
    NatToString(v.major)
  }

  /** One more than the largest uint64, the type of semver.Version's fields. */
  const Uint64Limit: nat := 0x1_0000_0000_0000_0000

  /** Every component of v fits in a uint64. */
  predicate Fits(v: Version)
  {
    v.major < Uint64Limit && v.minor < Uint64Limit && v.patch < Uint64Limit
  }

  /** semver.Make restricted to "M.m.p": three dot-separated decimal
      numerals without leading zeros, each within a uint64; anything else
      is rejected. */
  function Parse(s: string): (r: Option<Version>)
    ensures r.Some? ==> ToString(r.value) == s && Fits(r.value)
  {
    var parts := Split(s, '.');
    if |parts| == 3 && IsCanonicalNumeral(parts[0]) && IsCanonicalNumeral(parts[1])
       && IsCanonicalNumeral(parts[2])
       && NumeralValue(parts[0]) < Uint64Limit && NumeralValue(parts[1]) < Uint64Limit
       && NumeralValue(parts[2]) < Uint64Limit
    then
      ParsedRenders(s, parts[0], parts[1], parts[2]);
      Some(Version(NumeralValue(parts[0]), NumeralValue(parts[1]), NumeralValue(parts[2])))
    else None
  }

  /** Three canonical numerals split from s render back to s. */
  lemma ParsedRenders(s: string, a: string, b: string, c: string)
    requires Split(s, '.') == [a, b, c]
    requires IsCanonicalNumeral(a) && IsCanonicalNumeral(b) && IsCanonicalNumeral(c)
    ensures ToString(Version(NumeralValue(a), NumeralValue(b), NumeralValue(c))) == s
  {
    var v := Version(NumeralValue(a), NumeralValue(b), NumeralValue(c));
    NatToStringOfNumeral(a);
    NatToStringOfNumeral(b);
    NatToStringOfNumeral(c);
    JoinSplit(s, '.');
    RenderingsAreJoins(v);
  }

  /** A version splits at its dots into its three numerals. */
  lemma SplitToString(v: Version)
    ensures Split(ToString(v), '.') == [NatToString(v.major), NatToString(v.minor), NatToString(v.patch)]
  {
    var parts := [NatToString(v.major), NatToString(v.minor), NatToString(v.patch)];
    NatToStringCanonical(v.major);
    NatToStringCanonical(v.minor);
    NatToStringCanonical(v.patch);
    NumeralHasNoSeparator(parts[0], '.');
    NumeralHasNoSeparator(parts[1], '.');
    NumeralHasNoSeparator(parts[2], '.');
    SplitJoin(parts, '.');
    RenderingsAreJoins(v);
  }

  /** Every rendered version within uint64 parses back to itself. */
  lemma ParseToString(v: Version)
    requires Fits(v)
    ensures Parse(ToString(v)) == Some(v)
  {
    SplitToString(v);
    NatToStringCanonical(v.major);
    NatToStringCanonical(v.minor);
    NatToStringCanonical(v.patch);
    NumeralValueOfNatToString(v.major);
    NumeralValueOfNatToString(v.minor);
    NumeralValueOfNatToString(v.patch);
  }

  /** Two versions render alike exactly when they are equal. */
  lemma ToStringInjective(a: Version, b: Version)
    ensures ToString(a) == ToString(b) <==> a == b
  {
    if ToString(a) == ToString(b) {
      SplitToString(a);
      SplitToString(b);
      NatToStringInjective(a.major, b.major);
      NatToStringInjective(a.minor, b.minor);
      NatToStringInjective(a.patch, b.patch);
    }
  }

  /** Two versions have the same "%d.%d" key exactly when they share a release line. */
  lemma BranchKeyInjective(a: Version, b: Version)
    ensures BranchKey(a) == BranchKey(b) <==> SameBranch(a, b)
  {
    if BranchKey(a) == BranchKey(b) {
      var pa := [NatToString(a.major), NatToString(a.minor)];
      NatToStringCanonical(a.major);
      NatToStringCanonical(a.minor);
      NatToStringCanonical(b.major);
      NatToStringCanonical(b.minor);
      var pb := [NatToString(b.major), NatToString(b.minor)];
      NumeralHasNoSeparator(pa[0], '.');
      NumeralHasNoSeparator(pa[1], '.');
      NumeralHasNoSeparator(pb[0], '.');
      NumeralHasNoSeparator(pb[1], '.');
      RenderingsAreJoins(a);
      RenderingsAreJoins(b);
      SplitJoin(pa, '.');
      SplitJoin(pb, '.');
      NatToStringInjective(a.major, b.major);
      NatToStringInjective(a.minor, b.minor);
    }
  }

  lemma MajorKeyInjective(a: Version, b: Version)
    ensures MajorKey(a) == MajorKey(b) <==> a.major == b.major
  {
    if MajorKey(a) == MajorKey(b) {
      NatToStringInjective(a.major, b.major);
    }
  }

  // ---------------------------------------------------------------------------
  // semver.Sort
  // ---------------------------------------------------------------------------

  predicate Sorted(s: seq<Version>)
  {
    forall i, j :: 0 <= i < j < |s| ==> Leq(s[i], s[j])
  }

  predicate StrictlyAscending(s: seq<Version>)
  {
    forall i, j :: 0 <= i < j < |s| ==> Less(s[i], s[j])
  }

  lemma LeqTrans(a: Version, b: Version, c: Version)
    requires Leq(a, b) && Leq(b, c)
    ensures Leq(a, c)
  {
  }

  /** Leq is total. */
  lemma LeqTotal(a: Version, b: Version)
    ensures Leq(a, b) || Leq(b, a)
  {
  }

  /** Putting x before a sorted s whose head it does not exceed keeps it sorted. */
  lemma SortedCons(x: Version, s: seq<Version>)
    requires Sorted(s) && (s == [] || Leq(x, s[0]))
    ensures Sorted([x] + s)
  {
    var r := [x] + s;
    forall i, j | 0 <= i < j < |r|
      ensures Leq(r[i], r[j])
    {
      if i == 0 && j > 1 {
        LeqTrans(x, s[0], s[j - 1]);
      }
    }
  }

  /** The step of Insert that keeps the head of s in front. */
  lemma InsertBehind(x: Version, s: seq<Version>, rest: seq<Version>)
    requires Sorted(s) && s != [] && !Leq(x, s[0])
    requires Sorted(rest) && multiset(rest) == multiset(s[1..]) + multiset{x}
    ensures Sorted([s[0]] + rest)
    ensures multiset([s[0]] + rest) == multiset(s) + multiset{x}
  {
    assert s == [s[0]] + s[1..];
    if rest != [] {
      LeqTotal(x, s[0]);
      assert rest[0] in multiset(rest);
      if rest[0] != x {
        assert rest[0] in multiset(s[1..]);
        var j :| 0 <= j < |s[1..]| && s[1..][j] == rest[0];
        assert s[j + 1] == rest[0];
      }
    }
    SortedCons(s[0], rest);
  }

  function Insert(x: Version, s: seq<Version>): (r: seq<Version>)
    requires Sorted(s)
    ensures Sorted(r)
    ensures multiset(r) == multiset(s) + multiset{x}
  {
    if s == [] then [x]
    else if Leq(x, s[0]) then
      SortedCons(x, s);
      [x] + s
    else
      var rest := Insert(x, s[1..]);
      InsertBehind(x, s, rest);
      [s[0]] + rest
  }

  /** semver.Sort: an ascending permutation of the input. */
  function Sort(s: seq<Version>): (r: seq<Version>)
    ensures Sorted(r)
    ensures multiset(r) == multiset(s)
  {
    if s == [] then []
    else
      assert s == [s[0]] + s[1..];
      Insert(s[0], Sort(s[1..]))
  }
}
