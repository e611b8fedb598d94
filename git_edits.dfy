/** The text work of git.go: the README splice of editReadme, the two
    regular-expression rewrites of editDockerfile, and the argument list of
    gitPush. Reading and writing the files and running git are effects outside
    this module. */
module GitEdits {
  import opened Wrappers
  import opened Strings
  import opened Semver
  import opened Feed
  import opened Readme

  const TagsStart: string := "<!-- start autogeneration tags -->"
  const TagsEnd: string := "<!-- end autogeneration tags -->"

  // ---------------------------------------------------------------------------
  // editReadme
  // ---------------------------------------------------------------------------

  /** The manifest's tag lists, ordered by descending version key. */
  function TagLists(info: BuildInfo): (r: seq<seq<string>>)
    ensures |r| == |info.versions|
  {
    var keys := Descending(info.versions.Keys);
    seq(|keys|, i requires 0 <= i < |keys| => info.versions[keys[i]].tags)
  }

  /** The generatedTags string editReadme accumulates. */
  function GeneratedTags(info: BuildInfo): string
  {
    Block(TagLists(info))
  }

  datatype ReadmeEdit = Edited(content: string) | MarkersMissing

  /** editReadme's new README: the text up to the first start marker, the
      marker, a newline, the generated list and the text from the first end
      marker on. Only the presence of the markers is checked, not their order. */
  function EditReadme(file: string, info: BuildInfo): (r: ReadmeEdit)
    ensures r.MarkersMissing? <==> !Contains(file, TagsStart) || !Contains(file, TagsEnd)
  {
    SpliceTags(file, GeneratedTags(info))
  }

  /** The splice of editReadme for an arbitrary generated text g. */
  function SpliceTags(file: string, g: string): ReadmeEdit
  {
    var s := IndexOf(file, TagsStart);
    var e := IndexOf(file, TagsEnd);
    if s.None? || e.None? then MarkersMissing
    else Edited(file[..s.value] + TagsStart + "\n" + g + file[e.value..])
  }

  /** No tag of the manifest contains character c. */
  predicate TagsFree(info: BuildInfo, c: char)
  {
    forall k, j :: k in info.versions && 0 <= j < |info.versions[k].tags| ==> c !in info.versions[k].tags[j]
  }

  /** The generated list holds one line per version, keys in strictly
      descending byte-wise order, each line listing that version's tags. */
  lemma GeneratedTagsLines(info: BuildInfo)
    requires TagsFree(info, '\n')
    ensures var keys := Descending(info.versions.Keys);
            var lines := Split(GeneratedTags(info), '\n');
            && |lines| == |info.versions| + 1
            && lines[|info.versions|] == ""
            && (forall i :: 0 <= i < |keys| ==> lines[i] == LineText(info.versions[keys[i]].tags))
            && (forall i, j :: 0 <= i < j < |keys| ==> LexLess(keys[j], keys[i]))
  {
    var entries := TagLists(info);
    assert TagsAvoid(entries, '\n');
    BlockLines(entries);
  }

  lemma SamePrefixOccurs(x: string, y: string, pat: string, j: nat, len: nat)
    requires len <= |x| && len <= |y| && x[..len] == y[..len] && j + |pat| <= len
    ensures OccursAt(x, pat, j) <==> OccursAt(y, pat, j)
  {
    assert x[j..j + |pat|] == x[..len][j..j + |pat|];
    assert y[j..j + |pat|] == y[..len][j..j + |pat|];
  }

  /** A pattern whose first occurrence lies inside a common prefix of two
      texts occurs first at the same place in both. */
  lemma FirstOccurrenceInPrefix(x: string, y: string, pat: string, len: nat)
    requires len <= |x| && len <= |y| && x[..len] == y[..len]
    requires IndexOf(x, pat).Some? && IndexOf(x, pat).value + |pat| <= len
    ensures IndexOf(y, pat) == IndexOf(x, pat)
  {
    var i := IndexOf(x, pat).value;
    SamePrefixOccurs(x, y, pat, i, len);
    forall j | 0 <= j < i
      ensures !OccursAt(y, pat, j)
    {
      SamePrefixOccurs(x, y, pat, j, len);
    }
  }

  /** In a splice no end marker starts before the one that follows the
      generated text. */
  lemma NoEarlierEnd(file: string, out: string, g: string, en: string, len: nat, e0: nat)
    requires len <= |file| && len + 1 + |g| <= |out| && |en| > 0
    requires out[..len] == file[..len] && out[len] == '\n' && out[len + 1..len + 1 + |g|] == g
    requires en[0] !in g && en[0] != '\n' && '\n' !in en
    requires forall j :: 0 <= j < e0 ==> !OccursAt(file, en, j)
    requires len <= e0
    ensures forall j :: 0 <= j < len + 1 + |g| ==> !OccursAt(out, en, j)
  {
    forall j | 0 <= j < len + 1 + |g|
      ensures !OccursAt(out, en, j)
    {
      if j + |en| <= len {
        SamePrefixOccurs(out, file, en, j, len);
      } else if j < len {
        if j + |en| <= |out| {
          assert out[j..j + |en|][len - j] == '\n';
        }
      } else {
        assert out[j] != en[0] by {
          if j > len {
            assert out[j] == g[j - len - 1];
          }
        }
        if j + |en| <= |out| {
          assert out[j..j + |en|][0] == out[j];
        }
      }
    }
  }

  /** Splicing with markers st and en is idempotent when the first st ends
      before the first en and g cannot start an en. */
  lemma SpliceIdempotentWith(file: string, g: string, st: string, en: string)
    requires |en| > 0 && en[0] !in g && en[0] != '\n' && '\n' !in en
    requires IndexOf(file, st).Some? && IndexOf(file, en).Some?
    requires IndexOf(file, st).value + |st| <= IndexOf(file, en).value
    ensures var s0 := IndexOf(file, st).value;
            var out := file[..s0] + st + "\n" + g + file[IndexOf(file, en).value..];
            && IndexOf(out, st) == Some(s0)
            && IndexOf(out, en) == Some(s0 + |st| + 1 + |g|)
            && out[..s0] == file[..s0]
            && out[s0 + |st| + 1 + |g|..] == file[IndexOf(file, en).value..]
  {
    var s0 := IndexOf(file, st).value;
    var e0 := IndexOf(file, en).value;
    var out := file[..s0] + st + "\n" + g + file[e0..];
    var len := s0 + |st|;
    SpliceLayout(file[..s0], st, '\n', g, file[e0..]);
    assert out == file[..s0] + st + ['\n'] + g + file[e0..];
    assert file[..s0] + st == file[..len] by {
      assert file[s0..len] == st;
      assert file[..len] == file[..s0] + file[s0..len];
    }
    FirstOccurrenceInPrefix(file, out, st, len);
    EndAfterGenerated(file, out, g, en, len, e0);
  }

  /** In a text laid out as file[..len], a newline, g and file[e0..], the
      first end marker is the one that starts file[e0..]. */
  lemma EndAfterGenerated(file: string, out: string, g: string, en: string, len: nat, e0: nat)
    requires |en| > 0 && en[0] !in g && en[0] != '\n' && '\n' !in en
    requires IndexOf(file, en) == Some(e0) && len <= e0
    requires len + 1 + |g| <= |out|
    requires out[..len] == file[..len] && out[len] == '\n' && out[len + 1..len + 1 + |g|] == g
    requires out[len + 1 + |g|..] == file[e0..]
    ensures IndexOf(out, en) == Some(len + 1 + |g|)
  {
    var mid := len + 1 + |g|;
    NoEarlierEnd(file, out, g, en, len, e0);
    assert out[mid..mid + |en|] == file[e0..e0 + |en|] by {
      SliceOfSuffix(out, mid, 0, |en|);
      SliceOfSuffix(file, e0, 0, |en|);
    }
    IndexOfIs(out, en, mid);
  }

  /** The parts of a splice p + q + [c] + g + r. */
  lemma SpliceLayout<T>(p: seq<T>, q: seq<T>, c: T, g: seq<T>, r: seq<T>)
    ensures var out := p + q + [c] + g + r;
            var len := |p| + |q|;
            && out[..|p|] == p
            && out[..len] == p + q
            && out[len] == c
            && out[len + 1..len + 1 + |g|] == g
            && out[len + 1 + |g|..] == r
  {
    var out := p + q + [c] + g + r;
    assert out == (p + q) + [c] + g + r;
  }

  lemma SpliceIdempotent(file: string, g: string)
    requires IndexOf(file, TagsStart).Some? && IndexOf(file, TagsEnd).Some?
    requires IndexOf(file, TagsStart).value + |TagsStart| <= IndexOf(file, TagsEnd).value
    requires '<' !in g
    ensures SpliceTags(file, g).Edited?
    ensures SpliceTags(SpliceTags(file, g).content, g) == SpliceTags(file, g)
  {
    assert TagsEnd[0] == '<' && '\n' !in TagsEnd;
    SpliceIdempotentWith(file, g, TagsStart, TagsEnd);
    var s0 := IndexOf(file, TagsStart).value;
    var e0 := IndexOf(file, TagsEnd).value;
    var out := file[..s0] + TagsStart + "\n" + g + file[e0..];
    var mid := s0 + |TagsStart| + 1 + |g|;
    assert SpliceTags(out, g).content == out[..s0] + TagsStart + "\n" + g + out[mid..];
  }

  /** When the start marker precedes the end marker and no tag contains '<',
      editing the edited README changes nothing more: a second run of the
      watchdog on an unchanged manifest leaves nothing to commit. */
  lemma EditReadmeIdempotent(file: string, info: BuildInfo)
    requires IndexOf(file, TagsStart).Some? && IndexOf(file, TagsEnd).Some?
    requires IndexOf(file, TagsStart).value + |TagsStart| <= IndexOf(file, TagsEnd).value
    requires TagsFree(info, '<')
    ensures EditReadme(file, info).Edited?
    ensures EditReadme(EditReadme(file, info).content, info) == EditReadme(file, info)
  {
    assert TagsAvoid(TagLists(info), '<');
    BlockAvoids(TagLists(info), '<');
    SpliceIdempotent(file, GeneratedTags(info));
  }

  // ---------------------------------------------------------------------------
  // editDockerfile
  // ---------------------------------------------------------------------------

  /** fmt.Sprintf("%s/%d.%d/Dockerfile", path, major, minor). */
  function DockerfilePath(path: string, v: Version): string
  {
    path + "/" + BranchKey(v) + "/Dockerfile"
  }

  /** Within one checkout, two versions edit the same Dockerfile exactly when
      they share a release line. */
  lemma DockerfilePathPerBranch(path: string, a: Version, b: Version)
    ensures DockerfilePath(path, a) == DockerfilePath(path, b) <==> SameBranch(a, b)
  {
    var pa := DockerfilePath(path, a);
    var pb := DockerfilePath(path, b);
    if pa == pb {
      var n := |path| + 1;
      assert |BranchKey(a)| == |BranchKey(b)|;
      assert BranchKey(a) == pa[n..n + |BranchKey(a)|];
      assert BranchKey(b) == pb[n..n + |BranchKey(b)|];
    }
    BranchKeyInjective(a, b);
  }

  /** The two settings editDockerfile rewrites:
      (VERSION=)(\d+\.\d+\.\d+) and (SHA1=)([a-z0-9]+). */
  datatype Setting = VersionSetting | Sha1Setting

  function Prefix(k: Setting): (p: string)
    ensures |p| > 0
  {
    match k
    case VersionSetting => "VERSION="
    case Sha1Setting => "SHA1="
  }

  /** Characters the value's final repetition consumes: \d or [a-z0-9]. */
  predicate Extends(k: Setting, c: char)
  {
    match k
    case VersionSetting => IsDigit(c)
    case Sha1Setting => IsDigit(c) || 'a' <= c <= 'z'
  }

  /** u matches the value group in full. */
  predicate IsValue(k: Setting, u: string)
  {
    match k
    case VersionSetting =>
      && |u| > 0 && IsDigit(u[0]) && IsDigit(u[|u| - 1])
      && (forall i :: 0 <= i < |u| ==> IsDigit(u[i]) || u[i] == '.')
      && (forall i, j :: 0 <= i < |u| && 0 <= j < |u| && i + 1 == j && u[i] == '.' ==> u[j] != '.')
      && multiset(u)['.'] == 2
    case Sha1Setting =>
      |u| > 0 && forall i :: 0 <= i < |u| ==> Extends(k, u[i])
  }

  /** The expression matches s[..m] at the start of s, its greedy final
      repetition ending at m. */
  predicate IsMatch(k: Setting, s: string, m: nat)
  {
    && |Prefix(k)| < m <= |s|
    && s[..|Prefix(k)|] == Prefix(k)
    && IsValue(k, s[|Prefix(k)|..m])
    && (m == |s| || !Extends(k, s[m]))
  }

  function MatchFrom(k: Setting, s: string, m: nat): (r: Option<nat>)
    requires m <= |s| + 1
    ensures r.Some? ==> IsMatch(k, s, r.value)
    ensures r.None? ==> forall j :: m <= j ==> !IsMatch(k, s, j)
    decreases |s| + 1 - m
  {
    if m > |s| then None
    else if IsMatch(k, s, m) then Some(m)
    else MatchFrom(k, s, m + 1)
  }

  /** The length of the match at the start of s, if there is one. */
  function MatchLength(k: Setting, s: string): (r: Option<nat>)
    ensures r.Some? ==> IsMatch(k, s, r.value)
    ensures r.None? ==> forall j :: !IsMatch(k, s, j)
  {
    MatchFrom(k, s, 0)
  }

  /** Past a match's end the text no longer reads as a value. */
  lemma LongerIsNotValue(k: Setting, s: string, m: nat, hi: nat)
    requires IsMatch(k, s, m) && m < hi <= |s|
    ensures !IsValue(k, s[|Prefix(k)|..hi])
  {
    var p := |Prefix(k)|;
    var u := s[p..hi];
    assert u[m - p] == s[m];
    if k == VersionSetting && s[m] == '.' {
      assert u == s[p..m] + [s[m]] + s[m + 1..hi];
      assert multiset(u)['.'] >= multiset(s[p..m])['.'] + 1;
    }
  }

  /** Before a match's end the expression cannot stop. */
  lemma ShorterIsNotMatch(k: Setting, s: string, m: nat, lo: nat)
    requires IsMatch(k, s, m) && lo < m
    ensures !IsMatch(k, s, lo)
  {
    var p := |Prefix(k)|;
    if p < lo {
      var u := s[p..m];
      assert u[lo - p] == s[lo];
      if k == VersionSetting && s[lo] == '.' {
        assert u == s[p..lo] + [s[lo]] + s[lo + 1..m];
        assert multiset(s[p..lo])['.'] < 2;
      }
    }
  }

  /** The greedy match at a position has a single length. */
  lemma MatchUnique(k: Setting, s: string, m: nat)
    requires IsMatch(k, s, m)
    ensures forall m': nat :: IsMatch(k, s, m') ==> m' == m
  {
    forall m': nat
      ensures IsMatch(k, s, m') ==> m' == m
    {
      if m' < m {
        ShorterIsNotMatch(k, s, m, m');
      } else if m < m' <= |s| {
        LongerIsNotValue(k, s, m, m');
      }
    }
  }

  /** regexp.ReplaceAll with "${1}" + repl: every match of the setting's
      expression, scanned left to right without overlap, becomes the prefix
      followed by repl. */
  function ReplaceAll(k: Setting, s: string, repl: string): string
    decreases |s|
  {
    if s == [] then []
    else match MatchLength(k, s)
      case Some(m) => Prefix(k) + repl + ReplaceAll(k, s[m..], repl)
      case None => [s[0]] + ReplaceAll(k, s[1..], repl)
  }

  /** The rewritten Dockerfile: versions first, then checksums. */
  function EditDockerfile(file: string, v: Version, checksum: string): string
  {
    ReplaceAll(Sha1Setting, ReplaceAll(VersionSetting, file, ToString(v)), checksum)
  }

  /** Text without the setting's prefix is left as it is. */
  lemma {:induction false} ReplaceAllFrame(k: Setting, s: string, repl: string)
    requires forall j: nat :: !OccursAt(s, Prefix(k), j)
    ensures ReplaceAll(k, s, repl) == s
    decreases |s|
  {
    if s != [] {
      if MatchLength(k, s).Some? {
        assert OccursAt(s, Prefix(k), 0);
      }
      forall j: nat
        ensures !OccursAt(s[1..], Prefix(k), j)
      {
        if OccursAt(s[1..], Prefix(k), j) {
          assert s[1..][j..j + |Prefix(k)|] == s[j + 1..j + 1 + |Prefix(k)|];
          assert OccursAt(s, Prefix(k), j + 1);
        }
      }
      ReplaceAllFrame(k, s[1..], repl);
    }
  }

  /** The first character of a non-empty match, and no other, is the first
      character of the prefix. */
  lemma MatchHasOneHead(k: Setting, s: string, m: nat, i: nat)
    requires IsMatch(k, s, m) && 1 <= i < m
    ensures s[i] != Prefix(k)[0]
  {
    var p := |Prefix(k)|;
    if i < p {
      assert s[i] == s[..p][i];
    } else {
      assert s[i] == s[p..m][i - p];
    }
  }

  /** The rewrite copies its input up to the first match, where both the
      input and the output show the prefix's first character. */
  lemma {:induction false} CopiesUntilMatch(k: Setting, t: string, repl: string) returns (q: nat)
    ensures q <= |t| && |ReplaceAll(k, t, repl)| >= q
    ensures ReplaceAll(k, t, repl)[..q] == t[..q]
    ensures q == |t| ==> ReplaceAll(k, t, repl) == t
    ensures q < |t| ==> |ReplaceAll(k, t, repl)| > q && ReplaceAll(k, t, repl)[q] == Prefix(k)[0] && t[q] == Prefix(k)[0]
    decreases |t|
  {
    if t == [] {
      q := 0;
    } else {
      match MatchLength(k, t)
      case Some(m) =>
        q := 0;
        assert t[0] == t[..|Prefix(k)|][0];
      case None =>
        var q' := CopiesUntilMatch(k, t[1..], repl);
        q := q' + 1;
        var r := ReplaceAll(k, t[1..], repl);
        assert ReplaceAll(k, t, repl) == [t[0]] + r;
        assert t == [t[0]] + t[1..];
        ConsPrefix(t[0], r, q');
        ConsPrefix(t[0], t[1..], q');
    }
  }

  /** The first character of a rewrite's output cannot extend a value. */
  lemma RewriteHead(k: Setting, s: string, repl: string)
    requires s != [] && !Extends(k, s[0])
    ensures ReplaceAll(k, s, repl) != [] && !Extends(k, ReplaceAll(k, s, repl)[0])
  {
  }

  /** A match depends only on the text it spans and the character after it. */
  lemma MatchTransfer(k: Setting, x: string, y: string, m: nat)
    requires IsMatch(k, x, m) && m <= |y| && x[..m] == y[..m]
    requires m < |x| ==> m < |y| && y[m] == x[m]
    requires m == |x| ==> m == |y|
    ensures IsMatch(k, y, m)
  {
    var p := |Prefix(k)|;
    assert x[..p] == x[..m][..p];
    assert y[..p] == y[..m][..p];
    assert x[p..m] == x[..m][p..];
    assert y[p..m] == y[..m][p..];
  }

  /** A match in a text that agrees with another up to a position q > 0
      where both show the prefix's first character (or everywhere) is a
      match of the other text too. */
  lemma MatchWithinCopy(k: Setting, out: string, s: string, q: nat, m: nat)
    requires IsMatch(k, out, m)
    requires 0 < q <= |out| && q <= |s| && out[..q] == s[..q]
    requires q < |out| ==> q < |s| && out[q] == Prefix(k)[0] && s[q] == Prefix(k)[0]
    requires q == |out| ==> out == s
    ensures IsMatch(k, s, m)
  {
    if q < |out| {
      if q < m {
        MatchHasOneHead(k, out, m, q);
        assert false;
      }
      assert out[..m] == s[..m] by {
        assert out[..m] == out[..q][..m];
        assert s[..m] == s[..q][..m];
      }
      if m < q {
        assert out[m] == out[..q][m];
        assert s[m] == s[..q][m];
      }
      MatchTransfer(k, out, s, m);
    }
  }

  /** A match at the head of a rewrite that keeps its first character is
      already a match of the input. */
  lemma HeadMatchFromInput(k: Setting, c: char, t: string, repl: string, m: nat)
    ensures IsMatch(k, [c] + ReplaceAll(k, t, repl), m) ==> IsMatch(k, [c] + t, m)
  {
    var r := ReplaceAll(k, t, repl);
    var out := [c] + r;
    var s := [c] + t;
    if IsMatch(k, out, m) {
      var q := CopiesUntilMatch(k, t, repl);
      ConsPrefix(c, r, q);
      ConsPrefix(c, t, q);
      if q < |t| {
        assert out[q + 1] == r[q];
        assert s[q + 1] == t[q];
      }
      MatchWithinCopy(k, out, s, q + 1, m);
    }
  }

  /** No match starts at a character other than the prefix's first one. */
  lemma NoMatchAt(k: Setting, s: string, m: nat)
    requires s != [] && s[0] != Prefix(k)[0]
    ensures !IsMatch(k, s, m)
  {
    if |Prefix(k)| <= |s| {
      assert s[..|Prefix(k)|][0] == s[0];
    }
  }

  /** The prefix, a value and text that cannot extend it form a match. */
  lemma MatchOfWritten(k: Setting, repl: string, rest: string)
    requires IsValue(k, repl) && (rest == [] || !Extends(k, rest[0]))
    ensures IsMatch(k, Prefix(k) + repl + rest, |Prefix(k)| + |repl|)
  {
    var out := Prefix(k) + repl + rest;
    ConcatParts(Prefix(k), repl, rest);
    if rest != [] {
      assert out[|Prefix(k)| + |repl|] == rest[0];
    }
  }

  /** Where the input has a match, the output starts with the prefix and
      repl, and that is a match of the output. */
  lemma RewrittenHead(k: Setting, s: string, repl: string, n: nat)
    requires s != [] && MatchLength(k, s) == Some(n) && IsValue(k, repl)
    ensures ReplaceAll(k, s, repl) == Prefix(k) + repl + ReplaceAll(k, s[n..], repl)
    ensures IsMatch(k, ReplaceAll(k, s, repl), |Prefix(k)| + |repl|)
  {
    var rest := ReplaceAll(k, s[n..], repl);
    assert ReplaceAll(k, s, repl) == Prefix(k) + repl + rest;
    if n < |s| {
      RewriteHead(k, s[n..], repl);
    }
    MatchOfWritten(k, repl, rest);
  }

  /** No match starts strictly inside a written setting. */
  lemma NoMatchInsideSetting(k: Setting, out: string, repl: string, p: nat, m: nat)
    requires IsValue(k, repl) && |Prefix(k)| + |repl| <= |out|
    requires out[..|Prefix(k)| + |repl|] == Prefix(k) + repl
    requires 0 < p < |Prefix(k)| + |repl|
    ensures !IsMatch(k, out[p..], m)
  {
    var pre := Prefix(k);
    assert out[p] == (pre + repl)[p];
    if p < |pre| {
      assert pre[p] != pre[0] by {
        if k == VersionSetting { assert pre[p] in "ERSION="; } else { assert pre[p] in "HA1="; }
      }
    } else {
      assert out[p] == repl[p - |pre|];
      assert IsDigit(repl[p - |pre|]) || repl[p - |pre|] == '.' || 'a' <= repl[p - |pre|] <= 'z';
    }
    assert out[p..][0] == out[p];
    NoMatchAt(k, out[p..], m);
  }

  /** Where the input has no match, the rewrite copies its first character. */
  lemma CopiedHead(k: Setting, s: string, repl: string)
    requires s != [] && MatchLength(k, s).None?
    ensures ReplaceAll(k, s, repl) == [s[0]] + ReplaceAll(k, s[1..], repl)
  {
  }

  /** Where the input has no match, neither has the output. */
  lemma NoMatchAtCopiedHead(k: Setting, s: string, repl: string, m: nat)
    requires s != [] && MatchLength(k, s).None?
    ensures !IsMatch(k, ReplaceAll(k, s, repl), m)
  {
    var t := s[1..];
    CopiedHead(k, s, repl);
    assert s == [s[0]] + t;
    HeadMatchFromInput(k, s[0], t, repl, m);
  }

  /** Every setting found in out holds repl. */
  ghost predicate SettingsHold(k: Setting, out: string, repl: string)
  {
    forall p: nat, m: nat :: p <= |out| && IsMatch(k, out[p..], m) ==> out[p + |Prefix(k)|..p + m] == repl
  }

  /** Settings found in out from d on, where out continues as rest, hold
      what rest's settings hold. */
  lemma HoldsAfter(k: Setting, out: string, rest: string, repl: string, d: nat, p: nat, m: nat)
    requires SettingsHold(k, rest, repl)
    requires d <= p <= |out| && out[d..] == rest
    ensures IsMatch(k, out[p..], m) ==> out[p + |Prefix(k)|..p + m] == repl
  {
    assert out[p..] == rest[p - d..];
    if IsMatch(k, out[p..], m) {
      assert IsMatch(k, rest[p - d..], m);
      assert rest[p - d + |Prefix(k)|..p - d + m] == repl;
      SliceOfSuffix(out, d, p - d + |Prefix(k)|, p - d + m);
    }
  }

  /** A character in front that starts no match keeps the settings of rest. */
  lemma SettingsHoldCopied(k: Setting, c: char, rest: string, repl: string)
    requires SettingsHold(k, rest, repl)
    requires forall m: nat :: !IsMatch(k, [c] + rest, m)
    ensures SettingsHold(k, [c] + rest, repl)
  {
    var out := [c] + rest;
    assert out[1..] == rest;
    forall p: nat, m: nat | p <= |out| && IsMatch(k, out[p..], m)
      ensures out[p + |Prefix(k)|..p + m] == repl
    {
      if p != 0 {
        HoldsAfter(k, out, rest, repl, 1, p, m);
      }
    }
  }

  /** The setting written at the head holds repl. */
  lemma WrittenHeadHolds(k: Setting, repl: string, rest: string, m: nat)
    requires IsValue(k, repl) && (rest == [] || !Extends(k, rest[0]))
    ensures var out := Prefix(k) + repl + rest;
            IsMatch(k, out[0..], m) ==> out[|Prefix(k)|..m] == repl
  {
    var out := Prefix(k) + repl + rest;
    MatchOfWritten(k, repl, rest);
    ConcatParts(Prefix(k), repl, rest);
    assert out[0..] == out;
    MatchUnique(k, out, |Prefix(k)| + |repl|);
  }

  /** A setting written with repl in front of rest keeps the settings of rest. */
  lemma SettingsHoldWritten(k: Setting, repl: string, rest: string)
    requires IsValue(k, repl) && SettingsHold(k, rest, repl)
    requires rest == [] || !Extends(k, rest[0])
    ensures SettingsHold(k, Prefix(k) + repl + rest, repl)
  {
    var pre := Prefix(k);
    var out := pre + repl + rest;
    var a := |pre| + |repl|;
    ConcatParts(pre, repl, rest);
    forall p: nat, m: nat | p <= |out| && IsMatch(k, out[p..], m)
      ensures out[p + |pre|..p + m] == repl
    {
      if p == 0 {
        WrittenHeadHolds(k, repl, rest, m);
      } else if p < a {
        NoMatchInsideSetting(k, out, repl, p, m);
      } else {
        HoldsAfter(k, out, rest, repl, a, p, m);
      }
    }
  }

  /** Every setting left in the rewritten text holds repl: the rewrite leaves
      no old value behind and creates no new setting with another value. */
  lemma {:induction false} OnlyReplacementRemains(k: Setting, s: string, repl: string)
    requires IsValue(k, repl)
    ensures SettingsHold(k, ReplaceAll(k, s, repl), repl)
    decreases |s|
  {
    if s != [] {
      match MatchLength(k, s)
      case Some(n) =>
        var rest := ReplaceAll(k, s[n..], repl);
        OnlyReplacementRemains(k, s[n..], repl);
        RewrittenHead(k, s, repl, n);
        if n < |s| {
          RewriteHead(k, s[n..], repl);
        }
        SettingsHoldWritten(k, repl, rest);
      case None =>
        var rest := ReplaceAll(k, s[1..], repl);
        OnlyReplacementRemains(k, s[1..], repl);
        CopiedHead(k, s, repl);
        forall m: nat
          ensures !IsMatch(k, [s[0]] + rest, m)
        {
          NoMatchAtCopiedHead(k, s, repl, m);
        }
        SettingsHoldCopied(k, s[0], rest, repl);
    }
  }

  lemma NumeralsAreDigits(s: string)
    requires IsCanonicalNumeral(s)
    ensures '.' !in s && multiset(s)['.'] == 0
  {
    NumeralHasNoSeparator(s, '.');
  }

  /** Three numerals joined by dots form a value of the VERSION= expression. */
  lemma DottedIsValue(a: string, b: string, c: string)
    requires IsCanonicalNumeral(a) && IsCanonicalNumeral(b) && IsCanonicalNumeral(c)
    ensures IsValue(VersionSetting, a + "." + b + "." + c)
  {
    NumeralsAreDigits(a);
    NumeralsAreDigits(b);
    NumeralsAreDigits(c);
    var u := a + "." + b + "." + c;
    var d1, d2 := |a|, |a| + 1 + |b|;
    assert multiset(u) == multiset(a) + multiset{'.'} + multiset(b) + multiset{'.'} + multiset(c);
    forall i | 0 <= i < |u|
      ensures (IsDigit(u[i]) && u[i] != '.') || (u[i] == '.' && (i == d1 || i == d2))
      ensures i == d1 || i == d2 ==> u[i] == '.'
    {
      if i < d1 {
        assert u[i] == a[i];
      } else if d1 < i < d2 {
        assert u[i] == b[i - d1 - 1];
      } else if d2 < i {
        assert u[i] == c[i - d2 - 1];
      }
    }
    assert u[|u| - 1] == c[|c| - 1];
  }

  /** A rendered version is a value of the VERSION= expression. */
  lemma VersionStringIsValue(v: Version)
    ensures IsValue(VersionSetting, ToString(v))
  {
    NatToStringCanonical(v.major);
    NatToStringCanonical(v.minor);
    NatToStringCanonical(v.patch);
    DottedIsValue(NatToString(v.major), NatToString(v.minor), NatToString(v.patch));
  }

  /** After editDockerfile every VERSION= setting holds the new version. */
  lemma EditDockerfileVersion(file: string, v: Version)
    ensures var out := ReplaceAll(VersionSetting, file, ToString(v));
            forall p: nat, m: nat :: 0 <= p <= |out| && IsMatch(VersionSetting, out[p..], m) ==>
              out[p + 8..p + m] == ToString(v)
  {
    VersionStringIsValue(v);
    OnlyReplacementRemains(VersionSetting, file, ToString(v));
  }

  /** After editDockerfile every SHA1= setting holds the new checksum, provided
      the checksum is itself lower-case hexadecimal (or any [a-z0-9]+ text). */
  lemma EditDockerfileChecksum(file: string, v: Version, checksum: string)
    requires IsValue(Sha1Setting, checksum)
    ensures var out := EditDockerfile(file, v, checksum);
            forall p: nat, m: nat :: 0 <= p <= |out| && IsMatch(Sha1Setting, out[p..], m) ==>
              out[p + 5..p + m] == checksum
  {
    OnlyReplacementRemains(Sha1Setting, ReplaceAll(VersionSetting, file, ToString(v)), checksum);
  }

  // ---------------------------------------------------------------------------
  // gitPush
  // ---------------------------------------------------------------------------

  /** gitPush's arguments: a plain push for the empty branch, otherwise a
      push that sets the upstream of the named branch on origin. */
  function PushArgs(branch: string): (args: seq<string>)
    ensures |args| > 0 && args[0] == "push"
    ensures args == ["push"] <==> branch == ""
    ensures branch != "" ==> args[|args| - 1] == branch && "--set-upstream" in args
  {
    if branch == "" then ["push"] else ["push", "--set-upstream", "origin", branch]
  }
}
