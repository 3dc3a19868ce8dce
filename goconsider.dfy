/**
  The analyzer of goconsider.go: the default message wording and the `run`
  entry point, which walks every file of a package with a fresh collector.
  The collector's walk is the same as the linter's (class Consider.Linter),
  with the message rendered by `considerMessage`.
*/
module Goconsider {
  import opened Wrappers
  import opened Strings
  import opened Config
  import opened Format
  import opened Ast
  import opened Traversal
  import opened Consider

  /**
    `alternative`: the suggestion part of a message. For a non-empty list,
    the prefix, the suffix and a length equal to their sum leave nothing
    else in the brackets (Strings.PrefixSuffixExact).
  */
  function Alternative(alternatives: seq<string>): (r: string)
    ensures alternatives == [] <==> r == "something else"
    ensures alternatives != [] ==> HasPrefix(r, "one of [") && HasSuffix(r, Join(alternatives, ", ") + "]")
    ensures alternatives != [] ==> |r| == 9 + |Join(alternatives, ", ")|
  {
    if alternatives == [] then "something else"
    else
      var tail := Join(alternatives, ", ") + "]";
      var r := "one of [" + tail;
      assert r[0] == 'o' && "something else"[0] == 's';
      assert r[..8] == "one of [";
      assert r[|r| - |tail|..] == tail;
      r
  }

  /**
    Every suggested alternative is spelled out in the suggestion; that they
    appear in the order of the list is JoinPositionNext.
  */
  lemma AlternativeListsAll(alternatives: seq<string>, k: nat)
    requires k < |alternatives|
    ensures Contains(Alternative(alternatives), alternatives[k])
  {
    var inner := Join(alternatives, ", ");
    var p := JoinPosition(alternatives, ", ", k);
    assert OccursAt(inner, alternatives[k], p);
    var r := "one of [" + (inner + "]");
    assert r == Alternative(alternatives);
    assert r[8 + p..8 + p + |alternatives[k]|] == inner[p..p + |alternatives[k]|];
    assert OccursAt(r, alternatives[k], 8 + p);
    ContainsIffOccurs(r, alternatives[k]);
  }

  /** Where the `k`-th part starts in a join. */
  function JoinPosition(parts: seq<string>, sep: string, k: nat): (p: nat)
    requires k < |parts|
    ensures OccursAt(Join(parts, sep), parts[k], p)
    decreases k
  {
    if k == 0 then
      assert Join(parts, sep)[..|parts[0]|] == parts[0] by { JoinHead(parts, sep); }
      0
    else
      var q := JoinPosition(parts[1..], sep, k - 1);
      JoinTail(parts, sep);
      var p := |parts[0]| + |sep| + q;
      assert Join(parts, sep)[p..p + |parts[k]|] == Join(parts[1..], sep)[q..q + |parts[k]|];
      p
  }

  /** The next part starts right after the previous one and the separator: the join keeps the list's order. */
  lemma {:induction false} JoinPositionNext(parts: seq<string>, sep: string, k: nat)
    requires k + 1 < |parts|
    ensures JoinPosition(parts, sep, k + 1) == JoinPosition(parts, sep, k) + |parts[k]| + |sep|
  {
    if k > 0 {
      JoinPositionNext(parts[1..], sep, k - 1);
    }
  }

  lemma JoinHead(parts: seq<string>, sep: string)
    requires parts != []
    ensures HasPrefix(Join(parts, sep), parts[0])
  {
    if |parts| > 1 {
      assert Join(parts, sep) == parts[0] + sep + Join(parts[1..], sep);
    }
  }

  lemma JoinTail(parts: seq<string>, sep: string)
    requires |parts| > 1
    ensures Join(parts, sep) == parts[0] + sep + Join(parts[1..], sep)
  {
  }

  /** `considerMessage`: context, the synonym found in quotes, then the suggestion. */
  function ConsiderMessage(context: string, phrase: string, alternatives: seq<string>): (m: string)
    ensures HasPrefix(m, context + " contains '" + phrase + "', consider rephrasing to ")
    ensures HasSuffix(m, Alternative(alternatives))
    ensures |m| == |context| + |phrase| + 37 + |Alternative(alternatives)|
  {
    var head := context + " contains '" + phrase + "', consider rephrasing to ";
    var m := head + Alternative(alternatives);
    assert m[..|head|] == head;
    assert m[|m| - |Alternative(alternatives)|..] == Alternative(alternatives);
    m
  }

  /** The message a phrase without alternatives gets. */
  lemma MessageWithoutAlternatives(context: string, phrase: string)
    ensures ConsiderMessage(context, phrase, []) == context + " contains '" + phrase + "', consider rephrasing to something else"
  {
  }

  /** The collector renders every finding with `considerMessage`; references are not shown. */
  function ConsiderFormat(): FormatModel -> string {
    (m: FormatModel) => ConsiderMessage(m.context, m.found, m.alternatives)
  }

  /** The issues of one file, found by a fresh collector. */
  function FileIssues(settings: Settings): ((File, Option<string>)) -> seq<Issue> {
    (file: (File, Option<string>)) => Report(settings, ConsiderFormat(), FileC(file.0, file.1))
  }

  /**
    `run`: every file is checked by a fresh collector that starts with
    suppression off, so nothing one file does carries over to the next.
    A file comes with the name of its source, when the file set knows it.
  */
  method Run(settings: Settings, files: seq<(File, Option<string>)>) returns (issues: seq<Issue>)
    ensures issues == Collect(FileIssues(settings), files)
  {
    issues := [];
    for i := 0 to |files|
      invariant issues == Collect(FileIssues(settings), files[..i])
    {
      var collector := new Linter(settings, ConsiderFormat());
      collector.CheckFile(files[i].0, files[i].1);
      assert [] + collector.reported == collector.reported;
      assert collector.reported == FileIssues(settings)(files[i]);
      CollectPrefix(FileIssues(settings), files, i);
      issues := issues + collector.reported;
    }
    assert files[..|files|] == files;
  }

  lemma CollectPrefix<T>(issuesOf: T -> seq<Issue>, items: seq<T>, i: nat)
    requires i < |items|
    ensures Collect(issuesOf, items[..i + 1]) == Collect(issuesOf, items[..i]) + issuesOf(items[i])
  {
    assert items[..i + 1] == items[..i] + [items[i]];
    CollectSnoc(issuesOf, items[..i], items[i]);
  }
}
