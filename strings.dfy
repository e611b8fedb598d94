/** String helpers the watchdog relies on through Go's fmt, strings, bytes and
    sort packages and Python's str: decimal rendering and parsing of natural
    numbers, splitting and joining on a separator, substring search and the
    byte-wise order that sort.Strings uses. */
module Strings {
  import opened Wrappers

  // ---------------------------------------------------------------------------
  // Sequence steps, stated once for any element type
  // ---------------------------------------------------------------------------

  lemma PrefixStep<T>(s: seq<T>, i: nat)
    requires i < |s|
    ensures s[..i] + [s[i]] == s[..i + 1]
  {
  }

  lemma PrefixWhole<T>(s: seq<T>)
    ensures s[..|s|] == s
  {
  }

  lemma ConsPrefix<T>(c: T, s: seq<T>, n: nat)
    requires n <= |s|
    ensures ([c] + s)[..n + 1] == [c] + s[..n]
  {
  }

  lemma ConcatParts<T>(a: seq<T>, b: seq<T>, c: seq<T>)
    ensures (a + b + c)[..|a|] == a && (a + b + c)[|a|..|a| + |b|] == b
    ensures (a + b + c)[|a| + |b|..] == c
    ensures (a + b + c)[..|a| + |b|] == a + b
  {
  }

  /** The two ends of a splice p + q + g + e + r. */
  lemma SpliceEnds<T>(p: seq<T>, q: seq<T>, g: seq<T>, e: seq<T>, r: seq<T>)
    ensures (p + q + g + e + r)[..|p| + |q|] == p + q
    ensures (p + q + g + e + r)[|p| + |q| + |g|..] == e + r
  {
    assert p + q + g + e + r == (p + q) + g + (e + r);
    ConcatParts(p + q, g, e + r);
  }

  lemma SliceRight<T>(x: seq<T>, y: seq<T>, i: nat, j: nat)
    requires |x| <= i <= j <= |x| + |y|
    ensures (x + y)[i..j] == y[i - |x|..j - |x|]
    ensures (x + y)[i..] == y[i - |x|..]
  {
  }

  lemma SliceOfSuffix<T>(s: seq<T>, d: nat, i: nat, j: nat)
    requires i <= j && d + j <= |s|
    ensures s[d..][i..j] == s[d + i..d + j]
  {
  }

  /** A prefix of s split around position m. */
  lemma SplitAround<T>(s: seq<T>, m: nat, n: nat)
    requires m < n <= |s|
    ensures s[..n] == s[..m] + [s[m]] + s[m + 1..n]
  {
  }

  lemma SnocEqual<T>(d: seq<T>, e: T, r: seq<T>)
    requires |r| == |d| + 1 && r[|d|] == e
    requires forall i :: 0 <= i < |d| ==> r[i] == d[i]
    ensures d + [e] == r
  {
  }

  // ---------------------------------------------------------------------------
  // Decimal numerals
  // ---------------------------------------------------------------------------

  predicate IsDigit(c: char) { '0' <= c <= '9' }

  predicate AllDigits(s: string) { forall i :: 0 <= i < |s| ==> IsDigit(s[i]) }

  /** A numeral as "%d" prints it and as semantic versioning admits it:
      non-empty, decimal, and no leading zero unless it is "0" itself. */
  predicate IsCanonicalNumeral(s: string)
  {
    |s| > 0 && AllDigits(s) && (s[0] == '0' ==> |s| == 1)
  }

  function DigitValue(c: char): (d: nat)
    requires IsDigit(c)
    ensures d < 10
  {
    (c as int) - ('0' as int)
  }

  function DigitChar(d: nat): (c: char)
    requires d < 10
    ensures IsDigit(c) && DigitValue(c) == d
  {
    (('0' as int) + d) as char
  }

  /** The value of a string of decimal digits (the empty string counts as 0). */
  function NumeralValue(s: string): nat
    requires AllDigits(s)
  {
    if s == [] then 0 else NumeralValue(s[..|s| - 1]) * 10 + DigitValue(s[|s| - 1])
  }

  /** Decimal rendering of a natural number: Go's "%d", Python's str(). */
  function NatToString(n: nat): (s: string)
    ensures |s| > 0
  {
    if n < 10 then [DigitChar(n)] else NatToString(n / 10) + [DigitChar(n % 10)]
  }

  lemma {:induction false} NatToStringCanonical(n: nat)
    ensures IsCanonicalNumeral(NatToString(n))
    ensures NatToString(n)[0] == '0' <==> n == 0
  {
    if n >= 10 {
      NatToStringCanonical(n / 10);
    }
  }

  lemma {:induction false} NumeralValueOfNatToString(n: nat)
    ensures AllDigits(NatToString(n)) && NumeralValue(NatToString(n)) == n
  {
    NatToStringCanonical(n);
    if n >= 10 {
      NatToStringCanonical(n / 10);
      var s := NatToString(n);
      assert s[..|s| - 1] == NatToString(n / 10);
      NumeralValueOfNatToString(n / 10);
    }
  }

  lemma {:induction false} NumeralPositive(s: string)
    requires |s| > 0 && AllDigits(s) && s[0] != '0'
    ensures NumeralValue(s) > 0
  {
    if |s| > 1 {
      NumeralPositive(s[..|s| - 1]);
    }
  }

  lemma {:induction false} NatToStringOfNumeral(s: string)
    requires IsCanonicalNumeral(s)
    ensures NatToString(NumeralValue(s)) == s
  {
    if |s| > 1 {
      var p := s[..|s| - 1];
      NumeralPositive(p);
      NatToStringOfNumeral(p);
      assert s == p + [s[|s| - 1]];
    } else {
      assert NumeralValue(s) == DigitValue(s[0]);
    }
  }

  /** Distinct numbers print differently. */
  lemma NatToStringInjective(a: nat, b: nat)
    requires NatToString(a) == NatToString(b)
    ensures a == b
  {
    NumeralValueOfNatToString(a);
    NumeralValueOfNatToString(b);
  }

  // ---------------------------------------------------------------------------
  // Splitting and joining
  // ---------------------------------------------------------------------------

  /** Position of the first c in s, if any. */
  function IndexOfChar(s: string, c: char): (r: Option<nat>)
    ensures r.None? <==> c !in s
    ensures r.Some? ==> r.value < |s| && s[r.value] == c && c !in s[..r.value]
  {
    if |s| == 0 then None
    else if s[0] == c then Some(0)
    else match IndexOfChar(s[1..], c)
      case None => None
      case Some(i) =>
        assert s[..i + 1] == [s[0]] + s[1..][..i];
        Some(i + 1)
  }

  /** Position of the last c in s, if any. */
  function LastIndexOfChar(s: string, c: char): (r: Option<nat>)
    ensures r.None? <==> c !in s
    ensures r.Some? ==> r.value < |s| && s[r.value] == c && c !in s[r.value + 1..]
  {
    if |s| == 0 then None
    else if s[|s| - 1] == c then Some(|s| - 1)
    else
      var r := LastIndexOfChar(s[..|s| - 1], c);
      if r.Some? then assert s[r.value + 1..] == s[..|s| - 1][r.value + 1..] + [s[|s| - 1]]; r
      else assert s == s[..|s| - 1] + [s[|s| - 1]]; r
  }

  /** Go's strings.Split and Python's str.split with an explicit separator. */
  function Split(s: string, c: char): (parts: seq<string>)
    ensures |parts| >= 1
    decreases |s|
  {
    match IndexOfChar(s, c)
    case None => [s]
    case Some(i) => [s[..i]] + Split(s[i + 1..], c)
  }

  /** Go's strings.Join and Python's str.join. */
  function Join(parts: seq<string>, sep: string): string
  {
    if |parts| == 0 then ""
    else if |parts| == 1 then parts[0]
    else parts[0] + sep + Join(parts[1..], sep)
  }

  predicate NoneContains(parts: seq<string>, c: char)
  {
    forall i :: 0 <= i < |parts| ==> c !in parts[i]
  }

  lemma FirstSeparator(a: string, c: char, b: string)
    requires c !in a
    ensures IndexOfChar(a + [c] + b, c) == Some(|a|)
  {
    var s := a + [c] + b;
    assert s[|a|] == c;
    assert forall i :: 0 <= i < |a| ==> s[i] == a[i];
  }

  /** A leading separator splits off an empty first part. */
  lemma SplitLeading(x: string, c: char)
    ensures Split([c] + x, c) == [""] + Split(x, c)
  {
    var s := [c] + x;
    assert IndexOfChar(s, c) == Some(0);
    assert s[1..] == x;
  }

  /** Splitting undoes joining when no part holds the separator. */
  lemma {:induction false} SplitJoin(parts: seq<string>, c: char)
    requires |parts| >= 1 && NoneContains(parts, c)
    ensures Split(Join(parts, [c]), c) == parts
  {
    if |parts| > 1 {
      var rest := Join(parts[1..], [c]);
      FirstSeparator(parts[0], c, rest);
      var s := parts[0] + [c] + rest;
      assert s[..|parts[0]|] == parts[0];
      assert s[|parts[0]| + 1..] == rest;
      SplitJoin(parts[1..], c);
    }
  }

  /** Joining undoes splitting. */
  lemma {:induction false} JoinSplit(s: string, c: char)
    ensures Join(Split(s, c), [c]) == s
    decreases |s|
  {
    match IndexOfChar(s, c)
    case None =>
    case Some(i) =>
      var rest := Split(s[i + 1..], c);
      var parts := [s[..i]] + rest;
      assert parts[1..] == rest;
      assert Join(parts, [c]) == s[..i] + [c] + Join(rest, [c]);
      JoinSplit(s[i + 1..], c);
      assert s == s[..i] + [c] + s[i + 1..];
  }

  lemma NumeralHasNoSeparator(s: string, c: char)
    requires AllDigits(s) && !IsDigit(c)
    ensures c !in s
  {
    assert forall i :: 0 <= i < |s| ==> s[i] != c;
  }

  // ---------------------------------------------------------------------------
  // Substring search
  // ---------------------------------------------------------------------------

  predicate OccursAt(s: string, pat: string, i: nat)
  {
    i + |pat| <= |s| && s[i..i + |pat|] == pat
  }

  function IndexFrom(s: string, pat: string, k: nat): (r: Option<nat>)
    ensures r.Some? ==> k <= r.value && OccursAt(s, pat, r.value)
    ensures r.Some? ==> forall j :: k <= j < r.value ==> !OccursAt(s, pat, j)
    ensures r.None? ==> forall j :: k <= j ==> !OccursAt(s, pat, j)
    decreases |s| - k
  {
    if k + |pat| > |s| then None
    else if OccursAt(s, pat, k) then Some(k)
    else IndexFrom(s, pat, k + 1)
  }

  /** Go's bytes.Index / strings.Index: the first occurrence of pat in s. */
  function IndexOf(s: string, pat: string): (r: Option<nat>)
    ensures r.Some? ==> OccursAt(s, pat, r.value)
    ensures r.Some? ==> forall j :: 0 <= j < r.value ==> !OccursAt(s, pat, j)
    ensures r.None? ==> forall j :: 0 <= j ==> !OccursAt(s, pat, j)
  {
    IndexFrom(s, pat, 0)
  }

  /** The first occurrence is the one with none before it. */
  lemma IndexOfIs(s: string, pat: string, i: nat)
    requires OccursAt(s, pat, i) && forall j :: 0 <= j < i ==> !OccursAt(s, pat, j)
    ensures IndexOf(s, pat) == Some(i)
  {
  }

  function LastIndexUpTo(s: string, pat: string, k: nat): (r: Option<nat>)
    ensures r.Some? ==> r.value <= k && OccursAt(s, pat, r.value)
    ensures r.Some? ==> forall j :: r.value < j <= k ==> !OccursAt(s, pat, j)
    ensures r.None? ==> forall j :: 0 <= j <= k ==> !OccursAt(s, pat, j)
  {
    if OccursAt(s, pat, k) then Some(k)
    else if k == 0 then None
    else LastIndexUpTo(s, pat, k - 1)
  }

  /** The last occurrence of pat in s. */
  function LastIndexOf(s: string, pat: string): (r: Option<nat>)
    ensures r.Some? ==> OccursAt(s, pat, r.value)
    ensures r.Some? ==> forall j :: r.value < j ==> !OccursAt(s, pat, j)
    ensures r.None? ==> forall j :: 0 <= j ==> !OccursAt(s, pat, j)
  {
    LastIndexUpTo(s, pat, |s|)
  }

  /** Go's strings.Contains. */
  function Contains(s: string, pat: string): (r: bool)
    ensures r <==> exists j :: 0 <= j && OccursAt(s, pat, j)
  {
    IndexOf(s, pat).Some?
  }

  // ---------------------------------------------------------------------------
  // Byte-wise order (Go compares strings byte by byte; on UTF-8 that is the
  // order of code points, which is the order of Dafny characters)
  // ---------------------------------------------------------------------------

  predicate LexLess(a: string, b: string)
    decreases |a|
  {
    |b| > 0 && (|a| == 0 || a[0] < b[0] || (a[0] == b[0] && LexLess(a[1..], b[1..])))
  }

  lemma LexLessAsymmetric(a: string, b: string)
    ensures !(LexLess(a, b) && LexLess(b, a))
    decreases |a|
  {
    if |a| > 0 && |b| > 0 && a[0] == b[0] {
      LexLessAsymmetric(a[1..], b[1..]);
    }
  }

  lemma LexLessTotal(a: string, b: string)
    requires a != b
    ensures LexLess(a, b) || LexLess(b, a)
    decreases |a|
  {
    if |a| > 0 && |b| > 0 && a[0] == b[0] {
      assert a == [a[0]] + a[1..] && b == [b[0]] + b[1..];
      LexLessTotal(a[1..], b[1..]);
    }
  }

  lemma LexLessTransitive(a: string, b: string, c: string)
    requires LexLess(a, b) && LexLess(b, c)
    ensures LexLess(a, c)
    decreases |a|
  {
    if |a| > 0 && a[0] == b[0] && b[0] == c[0] {
      LexLessTransitive(a[1..], b[1..], c[1..]);
    }
  }

  predicate IsLexMax(m: string, keys: set<string>)
  {
    m in keys && forall k :: k in keys && k != m ==> LexLess(k, m)
  }

  lemma {:induction false} LexMaxExists(keys: set<string>)
    requires keys != {}
    ensures exists m :: IsLexMax(m, keys)
    decreases keys
  {
    var x :| x in keys;
    if keys != {x} {
      var rest := keys - {x};
      LexMaxExists(rest);
      var m :| IsLexMax(m, rest);
      if LexLess(x, m) {
        assert IsLexMax(m, keys);
      } else {
        LexLessTotal(x, m);
        forall k | k in keys && k != x
          ensures LexLess(k, x)
        {
          if k != m {
            LexLessTransitive(k, m, x);
          }
        }
        assert IsLexMax(x, keys);
      }
    } else {
      assert IsLexMax(x, keys);
    }
  }

  lemma LexMaxUnique(keys: set<string>)
    ensures forall m, m' :: IsLexMax(m, keys) && IsLexMax(m', keys) ==> m == m'
  {
    forall m, m' | IsLexMax(m, keys) && IsLexMax(m', keys)
      ensures m == m'
    {
      LexLessAsymmetric(m, m');
    }
  }

  /** The keys in descending byte-wise order, as
      sort.Sort(sort.Reverse(sort.StringSlice(keys))) leaves them. */
  function Descending(keys: set<string>): (r: seq<string>)
    ensures |r| == |keys|
    ensures forall k :: k in keys <==> k in r
    ensures forall i, j :: 0 <= i < j < |r| ==> LexLess(r[j], r[i])
    decreases |keys|
  {
    if keys == {} then []
    else
      LexMaxExists(keys);
      LexMaxUnique(keys);
      var m :| IsLexMax(m, keys);
      var rest := Descending(keys - {m});
      DescendingCons(keys, m, rest);
      [m] + rest
  }

  /** The greatest key in front of the rest in descending order lists all
      keys in descending order. */
  lemma DescendingCons(keys: set<string>, m: string, rest: seq<string>)
    requires IsLexMax(m, keys)
    requires |rest| == |keys - {m}|
    requires forall k :: k in keys - {m} <==> k in rest
    requires forall i, j :: 0 <= i < j < |rest| ==> LexLess(rest[j], rest[i])
    ensures |[m] + rest| == |keys|
    ensures forall k :: k in keys <==> k in [m] + rest
    ensures forall i, j :: 0 <= i < j < |[m] + rest| ==> LexLess(([m] + rest)[j], ([m] + rest)[i])
  {
    var r := [m] + rest;
    assert forall i :: 0 <= i < |rest| ==> rest[i] in keys - {m};
    forall i, j | 0 <= i < j < |r|
      ensures LexLess(r[j], r[i])
    {
      if i > 0 {
        assert r[i] == rest[i - 1] && r[j] == rest[j - 1];
      } else {
        assert r[j] == rest[j - 1];
      }
    }
  }
}
