/** The README tag list both generators write (git.go's editReadme and
    watchdog.py's modify_readme): one markdown bullet per version, listing its
    tags in backticks separated by ", ". */
module Readme {
  import opened Strings

  function Quote(tag: string): string { "`" + tag + "`" }

  function QuoteAll(tags: seq<string>): (r: seq<string>)
    ensures |r| == |tags|
    ensures forall i :: 0 <= i < |tags| ==> r[i] == Quote(tags[i])
  {
    if tags == [] then [] else [Quote(tags[0])] + QuoteAll(tags[1..])
  }

  /** A bullet line without its terminating newline. */
  function LineText(tags: seq<string>): string
  {
    "* " + Join(QuoteAll(tags), ", ")
  }

  /** fmt.Sprintf("* %s\n", strings.Join(tags, ", ")) with each tag in backticks. */
  function TagLine(tags: seq<string>): string
  {
    LineText(tags) + "\n"
  }

  /** The bullet lines for a list of tag lists, concatenated in order. */
  function Block(entries: seq<seq<string>>): string
  {
    if entries == [] then "" else TagLine(entries[0]) + Block(entries[1..])
  }

  function LineTexts(entries: seq<seq<string>>): (r: seq<string>)
    ensures |r| == |entries|
    ensures forall i :: 0 <= i < |entries| ==> r[i] == LineText(entries[i])
  {
    if entries == [] then [] else [LineText(entries[0])] + LineTexts(entries[1..])
  }

  /** No tag of any entry contains character c. */
  predicate TagsAvoid(entries: seq<seq<string>>, c: char)
  {
    forall i, j :: 0 <= i < |entries| && 0 <= j < |entries[i]| ==> c !in entries[i][j]
  }

  lemma {:induction false} JoinAvoids(parts: seq<string>, sep: string, c: char)
    requires NoneContains(parts, c) && c !in sep
    ensures c !in Join(parts, sep)
  {
    if |parts| > 1 {
      JoinAvoids(parts[1..], sep, c);
    }
  }

  lemma LineTextAvoids(tags: seq<string>, c: char)
    requires forall j :: 0 <= j < |tags| ==> c !in tags[j]
    requires c !in "* " && c !in ", " && c != '`'
    ensures c !in LineText(tags)
  {
    var q := QuoteAll(tags);
    forall i | 0 <= i < |q|
      ensures c !in q[i]
    {
      assert q[i] == "`" + tags[i] + "`";
    }
    JoinAvoids(q, ", ", c);
  }

  lemma {:induction false} BlockIsJoin(entries: seq<seq<string>>)
    ensures Block(entries) == Join(LineTexts(entries) + [""], "\n")
  {
    if entries != [] {
      BlockIsJoin(entries[1..]);
      var rest := LineTexts(entries[1..]) + [""];
      assert (LineTexts(entries) + [""]) == [LineText(entries[0])] + rest;
      assert ([LineText(entries[0])] + rest)[1..] == rest;
    }
  }

  /** Splitting the generated block at newlines gives back exactly one line per
      entry, in order, followed by the empty remainder after the last newline. */
  lemma BlockLines(entries: seq<seq<string>>)
    requires TagsAvoid(entries, '\n')
    ensures Split(Block(entries), '\n') == LineTexts(entries) + [""]
  {
    var parts := LineTexts(entries) + [""];
    forall i | 0 <= i < |parts|
      ensures '\n' !in parts[i]
    {
      if i < |entries| {
        LineTextAvoids(entries[i], '\n');
      }
    }
    BlockIsJoin(entries);
    SplitJoin(parts, '\n');
  }

  /** The block contains character c only if some tag does
      (for c outside "* ", ", ", the backtick and the newline). */
  lemma {:induction false} BlockAvoids(entries: seq<seq<string>>, c: char)
    requires TagsAvoid(entries, c)
    requires c !in "* " && c !in ", " && c != '`' && c != '\n'
    ensures c !in Block(entries)
  {
    if entries != [] {
      LineTextAvoids(entries[0], c);
      assert TagsAvoid(entries[1..], c);
      BlockAvoids(entries[1..], c);
    }
  }
}
