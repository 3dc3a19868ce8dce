/**
  The command of cmd/goconsider/run.go: argument parsing, the path filters
  used while collecting files, the reference list printed after the issues,
  and the error the command ends with.
*/
module Cli {
  import opened Wrappers
  import opened Strings

  // ---------------------------------------------------------------------
  // Arguments

  datatype Arguments = Arguments(help: bool, noReferences: bool, filenames: seq<string>, settings: string)

  /** The zero `arguments` value, returned alongside every error. */
  const NoArguments := Arguments(false, false, [], "")

  datatype ArgumentError = UnknownArgument(arg: string) | MissingParameter(arg: string)

  /**
    `Error()` of `unknownArgumentErr` and `missingParameterErr`. Prefix,
    suffix and length together fix the message: nothing stands between them.
  */
  function ErrorMessage(e: ArgumentError): (m: string)
    ensures e.UnknownArgument? ==> HasPrefix(m, "unknown argument '") && HasSuffix(m, e.arg + "'")
    ensures e.UnknownArgument? ==> |m| == |e.arg| + 19
    ensures e.MissingParameter? ==> HasPrefix(m, "argument '") && HasSuffix(m, e.arg + "' is missing a parameter")
    ensures e.MissingParameter? ==> |m| == |e.arg| + 34
  {
    match e
    case UnknownArgument(arg) =>
      var m := "unknown argument '" + arg + "'";
      assert m[..18] == "unknown argument '";
      assert m[|m| - |arg + "'"|..] == arg + "'";
      m
    case MissingParameter(arg) =>
      var m := "argument '" + arg + "' is missing a parameter";
      assert m[..10] == "argument '";
      assert m[|m| - |arg + "' is missing a parameter"|..] == arg + "' is missing a parameter";
      m
  }

  /**
    What `parseArguments` makes of the remaining arguments `rest`, given
    what it has collected so far: an argument not starting with `-` is a
    file name, `--settings` takes the next argument whatever it is, and the
    first unknown option or a trailing `--settings` ends parsing with an
    error and the zero arguments.
  */
  function Parse(rest: seq<string>, args: Arguments): (Arguments, Option<ArgumentError>)
    decreases |rest|
  {
    if rest == [] then (args, None)
    else
      var arg := rest[0];
      if !HasPrefix(arg, "-") then Parse(rest[1..], args.(filenames := args.filenames + [arg]))
      else if arg == "-h" || arg == "--help" then Parse(rest[1..], args.(help := true))
      else if arg == "--settings" then
        if |rest| < 2 then (NoArguments, Some(MissingParameter(arg)))
        else Parse(rest[2..], args.(settings := rest[1]))
      else if arg == "--noReferences" then Parse(rest[1..], args.(noReferences := true))
      else (NoArguments, Some(UnknownArgument(arg)))
  }

  function Parsed(rawArgs: seq<string>): (Arguments, Option<ArgumentError>) {
    Parse(rawArgs, NoArguments)
  }

  /** `parseArguments`: one pass over the arguments with a moving index. */
  method ParseArguments(rawArgs: seq<string>) returns (args: Arguments, err: Option<ArgumentError>)
    ensures (args, err) == Parsed(rawArgs)
  {
    args := NoArguments;
    var i := 0;
    while i < |rawArgs|
      invariant 0 <= i <= |rawArgs|
      invariant Parse(rawArgs[i..], args) == Parsed(rawArgs)
    {
      var arg := rawArgs[i];
      assert rawArgs[i..][1..] == rawArgs[i + 1..];
      if !HasPrefix(arg, "-") {
        args := args.(filenames := args.filenames + [arg]);
        i := i + 1;
        continue;
      }
      if arg == "-h" || arg == "--help" {
        args := args.(help := true);
      } else if arg == "--settings" {
        i := i + 1;
        if i >= |rawArgs| {
          return NoArguments, Some(MissingParameter(arg));
        }
        assert rawArgs[i - 1..][2..] == rawArgs[i + 1..];
        args := args.(settings := rawArgs[i]);
      } else if arg == "--noReferences" {
        args := args.(noReferences := true);
      } else {
        return NoArguments, Some(UnknownArgument(arg));
      }
      i := i + 1;
    }
    assert rawArgs[i..] == [];
    err := None;
  }

  /** An error always comes with the zero arguments. */
  lemma {:induction false} ErrorHasNoArguments(rest: seq<string>, args: Arguments)
    ensures Parse(rest, args).1.Some? ==> Parse(rest, args).0 == NoArguments
    decreases |rest|
  {
    if rest != [] {
      ErrorHasNoArguments(rest[1..], args.(filenames := args.filenames + [rest[0]]));
      ErrorHasNoArguments(rest[1..], args.(help := true));
      ErrorHasNoArguments(rest[1..], args.(noReferences := true));
      if |rest| >= 2 {
        ErrorHasNoArguments(rest[2..], args.(settings := rest[1]));
      }
    }
  }

  /**
    Parsing continues where it left off: once a prefix has parsed without
    error, the rest is parsed from what the prefix collected; an unknown
    option in the prefix ends parsing there.
  */
  lemma {:induction false} ParseAppend(a: seq<string>, b: seq<string>, args: Arguments)
    ensures Parse(a, args).1.None? ==> Parse(a + b, args) == Parse(b, Parse(a, args).0)
    ensures Parse(a, args).1.Some? && Parse(a, args).1.value.UnknownArgument? ==> Parse(a + b, args) == Parse(a, args)
    decreases |a|
  {
    if a == [] {
      assert a + b == b;
    } else {
      var arg := a[0];
      assert (a + b)[0] == arg && (a + b)[1..] == a[1..] + b;
      if !HasPrefix(arg, "-") {
        ParseAppend(a[1..], b, args.(filenames := args.filenames + [arg]));
      } else if arg == "-h" || arg == "--help" {
        ParseAppend(a[1..], b, args.(help := true));
      } else if arg == "--settings" {
        if |a| >= 2 {
          assert (a + b)[1] == a[1] && (a + b)[2..] == a[2..] + b;
          ParseAppend(a[2..], b, args.(settings := a[1]));
        } else {
          assert Parse(a, args) == (NoArguments, Some(MissingParameter(arg)));
        }
      } else if arg == "--noReferences" {
        ParseAppend(a[1..], b, args.(noReferences := true));
      }
    }
  }

  /** Plain arguments are file names, kept in the order given. */
  lemma {:induction false} OperandsInOrder(operands: seq<string>, args: Arguments)
    requires forall k :: 0 <= k < |operands| ==> !HasPrefix(operands[k], "-")
    ensures Parse(operands, args) == (args.(filenames := args.filenames + operands), None)
    decreases |operands|
  {
    if operands == [] {
      assert args.filenames + operands == args.filenames;
    } else {
      OperandsInOrder(operands[1..], args.(filenames := args.filenames + [operands[0]]));
      assert args.filenames + [operands[0]] + operands[1..] == args.filenames + operands;
    }
  }

  /** A later `--settings` wins, and its value may itself start with a dash. */
  lemma SettingsLastWins(rawArgs: seq<string>, file: string)
    requires Parsed(rawArgs).1.None?
    ensures Parsed(rawArgs + ["--settings", file]) == (Parsed(rawArgs).0.(settings := file), None)
  {
    ParseAppend(rawArgs, ["--settings", file], NoArguments);
    assert ["--settings", file][2..] == [];
  }

  /** A trailing `--settings` is missing its parameter. */
  lemma SettingsWithoutParameter(rawArgs: seq<string>)
    requires Parsed(rawArgs).1.None?
    ensures Parsed(rawArgs + ["--settings"]) == (NoArguments, Some(MissingParameter("--settings")))
  {
    ParseAppend(rawArgs, ["--settings"], NoArguments);
  }

  /** An unknown option stops parsing: nothing after it is looked at. */
  lemma UnknownOptionStops(rawArgs: seq<string>, arg: string, rest: seq<string>)
    requires Parsed(rawArgs).1.None?
    requires HasPrefix(arg, "-") && arg !in {"-h", "--help", "--settings", "--noReferences"}
    ensures Parsed(rawArgs + [arg] + rest) == (NoArguments, Some(UnknownArgument(arg)))
  {
    ParseAppend(rawArgs, [arg] + rest, NoArguments);
    assert rawArgs + [arg] + rest == rawArgs + ([arg] + rest);
    assert ([arg] + rest)[0] == arg;
  }

  /** `-h`, `--help` and `--noReferences` only set their flag. */
  lemma FlagsOnly(rawArgs: seq<string>, flag: string)
    requires Parsed(rawArgs).1.None?
    requires flag in {"-h", "--help", "--noReferences"}
    ensures var r := Parsed(rawArgs + [flag]);
      r.1.None? &&
      r.0 == if flag == "--noReferences" then Parsed(rawArgs).0.(noReferences := true)
              else Parsed(rawArgs).0.(help := true)
  {
    ParseAppend(rawArgs, [flag], NoArguments);
    assert flag[..1] == "-";
  }

  // ---------------------------------------------------------------------
  // Path filters

  /** `hasVendorPath`: the path runs through a directory named `vendor`. */
  predicate HasVendorPath(s: string) {
    HasPrefix(s, "vendor/") || Contains(s, "/vendor/")
  }

  /** Some path component, followed by a separator, is exactly `vendor`. */
  predicate VendorDirectoryAt(s: string, k: int) {
    OccursAt(s, "vendor/", k) && (k == 0 || s[k - 1] == '/')
  }

  lemma HasVendorPathIff(s: string)
    ensures HasVendorPath(s) <==> exists k :: VendorDirectoryAt(s, k)
  {
    if HasVendorPath(s) {
      VendorDirectoryFound(s);
    }
    forall k | VendorDirectoryAt(s, k) ensures HasVendorPath(s) {
      VendorDirectoryMatched(s, k);
    }
  }

  lemma VendorDirectoryFound(s: string)
    requires HasVendorPath(s)
    ensures exists k :: VendorDirectoryAt(s, k)
  {
    if HasPrefix(s, "vendor/") {
      assert VendorDirectoryAt(s, 0);
    } else {
      ContainsIffOccurs(s, "/vendor/");
      var j :| OccursAt(s, "/vendor/", j);
      var pat := "/vendor/";
      assert pat[1..] == "vendor/";
      assert s[j + 1..j + 1 + 7] == s[j..j + 8][1..];
      assert VendorDirectoryAt(s, j + 1);
    }
  }

  lemma VendorDirectoryMatched(s: string, k: int)
    requires VendorDirectoryAt(s, k)
    ensures HasVendorPath(s)
  {
    if k > 0 {
      var pat := "/vendor/";
      assert pat == "/" + "vendor/";
      assert s[k - 1..k - 1 + 8] == [s[k - 1]] + s[k..k + 7];
      assert OccursAt(s, pat, k - 1);
      ContainsIffOccurs(s, pat);
    } else {
      assert s[..7] == s[0..7];
    }
  }

  /** What `isAGoFile` looks at in a directory entry. */
  datatype Entry = Entry(name: string, isDir: bool)

  predicate IsAGoFile(info: Entry) {
    !info.isDir && HasSuffix(info.name, ".go")
  }

  /** The file filter of the walk: Go files outside `vendor` directories. */
  predicate Selected(path: string, info: Entry) {
    !HasVendorPath(path) && IsAGoFile(info)
  }

  lemma SelectedIff(path: string, info: Entry)
    ensures Selected(path, info) <==>
      (forall k :: !VendorDirectoryAt(path, k)) && !info.isDir && |info.name| >= 3
      && info.name[|info.name| - 3..] == ".go"
  {
    HasVendorPathIff(path);
  }

  // ---------------------------------------------------------------------
  // The reference list

  /** Lexicographic order of runes, which is also the byte order of their UTF-8 encoding. */
  predicate Below(a: string, b: string) {
    if a == [] then b != []
    else if b == [] then false
    else a[0] < b[0] || (a[0] == b[0] && Below(a[1..], b[1..]))
  }

  lemma {:induction false} BelowIrreflexive(a: string)
    ensures !Below(a, a)
  {
    if a != [] {
      BelowIrreflexive(a[1..]);
    }
  }

  lemma {:induction false} BelowTransitive(a: string, b: string, c: string)
    requires Below(a, b) && Below(b, c)
    ensures Below(a, c)
  {
    if a != [] && b != [] && c != [] && a[0] == b[0] && b[0] == c[0] {
      BelowTransitive(a[1..], b[1..], c[1..]);
    }
  }

  lemma {:induction false} BelowTotal(a: string, b: string)
    ensures a == b || Below(a, b) || Below(b, a)
  {
    if a != [] && b != [] && a[0] == b[0] {
      BelowTotal(a[1..], b[1..]);
      if a[1..] == b[1..] {
        assert a == [a[0]] + a[1..] && b == [b[0]] + b[1..];
      }
    }
  }

  lemma BelowAsymmetric(a: string, b: string)
    requires Below(a, b)
    ensures !Below(b, a)
  {
    if Below(b, a) {
      BelowTransitive(a, b, a);
      BelowIrreflexive(a);
    }
  }

  /** Sorted without repeats. */
  predicate Ascending(xs: seq<string>) {
    forall i, j :: 0 <= i < j < |xs| ==> Below(xs[i], xs[j])
  }

  /** `xs` sorted, one string inserted at its place. */
  function Insert(xs: seq<string>, x: string): (ys: seq<string>)
    requires Ascending(xs) && x !in xs
    ensures Ascending(ys)
    ensures multiset(ys) == multiset(xs) + multiset{x}
  {
    if xs == [] then [x]
    else
      BelowTotal(x, xs[0]);
      if Below(x, xs[0]) then
        BelowAll(x, xs);
        ConsAscending(x, xs);
        [x] + xs
      else
        assert Ascending(xs[1..]);
        var rest := Insert(xs[1..], x);
        HeadBelowInserted(xs, x, rest);
        ConsAscending(xs[0], rest);
        assert xs == [xs[0]] + xs[1..];
        [xs[0]] + rest
  }

  lemma ConsAscending(h: string, xs: seq<string>)
    requires Ascending(xs) && forall j :: 0 <= j < |xs| ==> Below(h, xs[j])
    ensures Ascending([h] + xs)
  {
    forall i, j | 0 <= i < j < |[h] + xs| ensures Below(([h] + xs)[i], ([h] + xs)[j]) {
      assert ([h] + xs)[j] == xs[j - 1];
      if i > 0 {
        assert ([h] + xs)[i] == xs[i - 1];
      }
    }
  }

  /** Below the head of an ascending list is below all of it. */
  lemma BelowAll(x: string, xs: seq<string>)
    requires Ascending(xs) && xs != [] && Below(x, xs[0])
    ensures forall j :: 0 <= j < |xs| ==> Below(x, xs[j])
  {
    forall j | 0 <= j < |xs| ensures Below(x, xs[j]) {
      if j > 0 {
        BelowTransitive(x, xs[0], xs[j]);
      }
    }
  }

  lemma HeadBelowInserted(xs: seq<string>, x: string, rest: seq<string>)
    requires Ascending(xs) && xs != [] && Below(xs[0], x)
    requires multiset(rest) == multiset(xs[1..]) + multiset{x}
    ensures forall j :: 0 <= j < |rest| ==> Below(xs[0], rest[j])
  {
    forall j | 0 <= j < |rest| ensures Below(xs[0], rest[j]) {
      assert rest[j] in multiset(rest);
      assert rest[j] == x || rest[j] in xs[1..];
    }
  }

  /** `sort.StringSlice(refList).Sort()` on a list without repeats. */
  method SortStrings(refs: seq<string>) returns (sorted: seq<string>)
    requires forall i, j :: 0 <= i < j < |refs| ==> refs[i] != refs[j]
    ensures Ascending(sorted)
    ensures multiset(sorted) == multiset(refs)
  {
    sorted := [];
    for i := 0 to |refs|
      invariant Ascending(sorted)
      invariant multiset(sorted) == multiset(refs[..i])
    {
      assert refs[..i + 1] == refs[..i] + [refs[i]];
      assert refs[i] !in refs[..i] by {
        forall j | 0 <= j < i ensures refs[..i][j] != refs[i] {
        }
      }
      assert refs[i] !in multiset(refs[..i]);
      assert refs[i] !in sorted by {
        assert refs[i] in sorted <==> refs[i] in multiset(sorted);
      }
      sorted := Insert(sorted, refs[i]);
    }
    assert refs[..|refs|] == refs;
  }

  /** Two ascending lists with the same strings are the same list. */
  lemma {:induction false} AscendingUnique(xs: seq<string>, ys: seq<string>)
    requires Ascending(xs) && Ascending(ys)
    requires forall s :: s in xs <==> s in ys
    ensures xs == ys
  {
    if xs != [] {
      assert xs[0] in xs;
      assert ys != [];
    }
    if ys != [] {
      assert ys[0] in ys;
      assert xs != [];
    }
    if xs != [] && ys != [] {
      MinimumFirst(xs, ys[0]);
      MinimumFirst(ys, xs[0]);
      if xs[0] != ys[0] {
        BelowAsymmetric(xs[0], ys[0]);
      }
      forall s ensures s in xs[1..] <==> s in ys[1..] {
        if s in xs[1..] {
          MinimumFirst(xs, s);
          BelowIrreflexive(s);
        }
        if s in ys[1..] {
          MinimumFirst(ys, s);
          BelowIrreflexive(s);
        }
        assert xs == [xs[0]] + xs[1..] && ys == [ys[0]] + ys[1..];
      }
      AscendingUnique(xs[1..], ys[1..]);
      assert xs == [xs[0]] + xs[1..] && ys == [ys[0]] + ys[1..];
    }
  }

  /** In an ascending list every later element is above the first. */
  lemma MinimumFirst(xs: seq<string>, s: string)
    requires Ascending(xs) && s in xs && xs != []
    ensures s == xs[0] || Below(xs[0], s)
    ensures s in xs[1..] ==> Below(xs[0], s)
  {
  }

  /** An issue as the command prints it: where, what, and its references. */
  datatype LintIssue = LintIssue(pos: string, message: string, references: seq<string>)

  /** The number of issues of all files. */
  function IssueCount(files: seq<seq<LintIssue>>): nat {
    if files == [] then 0 else IssueCount(files[..|files| - 1]) + |files[|files| - 1]|
  }

  function Elements(refs: seq<string>): set<string> {
    set r | r in refs
  }

  /** Every reference the issues carry. */
  function IssueReferences(issues: seq<LintIssue>): set<string> {
    if issues == [] then {}
    else IssueReferences(issues[..|issues| - 1]) + Elements(issues[|issues| - 1].references)
  }

  /** Every reference any issue of any file carries. */
  function AllReferences(files: seq<seq<LintIssue>>): set<string> {
    if files == [] then {} else AllReferences(files[..|files| - 1]) + IssueReferences(files[|files| - 1])
  }

  lemma AllReferencesIff(files: seq<seq<LintIssue>>, r: string)
    ensures r in AllReferences(files) <==>
      exists f, k :: 0 <= f < |files| && 0 <= k < |files[f]| && r in files[f][k].references
  {
    if files != [] {
      var init := files[..|files| - 1];
      AllReferencesIff(init, r);
      IssueReferencesIff(files[|files| - 1], r);
      if r in AllReferences(init) {
        var f, k :| 0 <= f < |init| && 0 <= k < |init[f]| && r in init[f][k].references;
        assert files[f] == init[f];
      }
      if exists f, k :: 0 <= f < |files| && 0 <= k < |files[f]| && r in files[f][k].references {
        var f, k :| 0 <= f < |files| && 0 <= k < |files[f]| && r in files[f][k].references;
        if f < |init| {
          assert init[f] == files[f];
        }
      }
    }
  }

  lemma {:induction false} IssueReferencesIff(issues: seq<LintIssue>, r: string)
    ensures r in IssueReferences(issues) <==> exists k :: 0 <= k < |issues| && r in issues[k].references
  {
    if issues != [] {
      var n := |issues| - 1;
      var init := issues[..n];
      IssueReferencesIff(init, r);
      assert IssueReferences(issues) == IssueReferences(init) + Elements(issues[n].references);
      if r in IssueReferences(init) {
        var k :| 0 <= k < |init| && r in init[k].references;
        assert issues[k] == init[k];
      }
      if r in issues[n].references {
        assert 0 <= n < |issues| && r in issues[n].references;
      }
      if exists k :: 0 <= k < |issues| && r in issues[k].references {
        var k :| 0 <= k < |issues| && r in issues[k].references;
        if k < n {
          assert init[k] == issues[k];
        }
      }
    }
  }


  /**
    The reference part of `lintAndReport`: count the issues and collect
    their references in a set; when references are wanted and there are
    any, print `References:` and then each reference once, in sorted order.
    Returns the issue count and the printed lines.
  */
  method LintAndReport(files: seq<seq<LintIssue>>, reportRef: bool) returns (issueCount: nat, printed: seq<string>)
    ensures issueCount == IssueCount(files)
    ensures !reportRef || AllReferences(files) == {} ==> printed == []
    ensures reportRef && AllReferences(files) != {} ==>
      |printed| >= 2 && printed[0] == "References:" && Ascending(printed[1..])
      && forall r :: r in printed[1..] <==> r in AllReferences(files)
  {
    issueCount := 0;
    var references: set<string> := {};
    for n := 0 to |files|
      invariant issueCount == IssueCount(files[..n])
      invariant references == AllReferences(files[..n])
    {
      assert files[..n + 1][..n] == files[..n];
      var issues := files[n];
      issueCount := issueCount + |issues|;
      references := AddReferences(references, issues);
    }
    assert files[..|files|] == files;
    printed := [];
    if reportRef && |references| > 0 {
      var sorted := SortedReferences(references);
      printed := ["References:"] + sorted;
      assert printed[1..] == sorted;
      var any :| any in references;
      assert any in sorted;
    }
  }

  /** The inner loops of `lintAndReport`: every reference of every issue of one file joins the set. */
  method AddReferences(references0: set<string>, issues: seq<LintIssue>) returns (references: set<string>)
    ensures references == references0 + IssueReferences(issues)
  {
    references := references0;
    for m := 0 to |issues|
      invariant references == references0 + IssueReferences(issues[..m])
    {
      assert issues[..m + 1][..m] == issues[..m];
      var refs := issues[m].references;
      ghost var upTo := references;
      for k := 0 to |refs|
        invariant references == upTo + Elements(refs[..k])
      {
        assert refs[..k + 1] == refs[..k] + [refs[k]];
        references := references + {refs[k]};
      }
      assert refs[..|refs|] == refs;
    }
    assert issues[..|issues|] == issues;
  }

  /** The reference set copied into a list and sorted: each reference once, ascending. */
  method SortedReferences(references: set<string>) returns (sorted: seq<string>)
    ensures Ascending(sorted)
    ensures forall r :: r in sorted <==> r in references
  {
    var refList: seq<string> := [];
    var rest := references;
    while rest != {}
      invariant rest <= references
      invariant forall r :: r in refList <==> r in references - rest
      invariant forall i, j :: 0 <= i < j < |refList| ==> refList[i] != refList[j]
      decreases |rest|
    {
      var ref :| ref in rest;
      assert ref !in refList;
      refList := refList + [ref];
      rest := rest - {ref};
    }
    sorted := SortStrings(refList);
    forall r ensures r in sorted <==> r in refList {
      assert r in sorted <==> r in multiset(sorted);
    }
  }

  // ---------------------------------------------------------------------
  // How the command ends

  /** `%v` of a non-negative integer: its decimal digits. */
  function Decimal(n: nat): (s: string)
    ensures |s| >= 1
    ensures forall i :: 0 <= i < |s| ==> '0' <= s[i] <= '9'
    ensures n > 0 ==> s[0] != '0'
    decreases n
  {
    if n < 10 then [DigitChar(n)] else Decimal(n / 10) + [DigitChar(n % 10)]
  }

  function DigitChar(d: nat): (c: char)
    requires d < 10
    ensures '0' <= c <= '9'
  {
    ('0' as int + d) as char
  }

  /** Reading decimal digits back. */
  function ValueOf(s: string): nat
    requires forall i :: 0 <= i < |s| ==> '0' <= s[i] <= '9'
  {
    if s == [] then 0 else 10 * ValueOf(s[..|s| - 1]) + (s[|s| - 1] as int - '0' as int)
  }

  lemma {:induction false} DecimalRoundTrip(n: nat)
    ensures ValueOf(Decimal(n)) == n
    decreases n
  {
    var s := Decimal(n);
    var d := n % 10;
    if n >= 10 {
      var q := n / 10;
      var init := Decimal(q);
      assert n == 10 * q + d;
      DecimalRoundTrip(q);
      assert s == init + [DigitChar(d)];
      ValueOfSnoc(init, DigitChar(d));
    } else {
      ValueOfSnoc([], DigitChar(d));
      assert s == [] + [DigitChar(d)];
    }
  }

  lemma ValueOfSnoc(init: string, c: char)
    requires forall i :: 0 <= i < |init| ==> '0' <= init[i] <= '9'
    requires '0' <= c <= '9'
    ensures ValueOf(init + [c]) == 10 * ValueOf(init) + (c as int - '0' as int)
  {
    assert (init + [c])[..|init|] == init;
  }


  /** `Error()` of `issuesFoundError`: the count in decimal, then " issues were found", and nothing else. */
  function IssuesFoundMessage(count: nat): (m: string)
    ensures HasPrefix(m, Decimal(count)) && HasSuffix(m, " issues were found")
    ensures |m| == |Decimal(count)| + 18
  {
    var m := Decimal(count) + " issues were found";
    assert m[..|Decimal(count)|] == Decimal(count);
    assert m[|m| - 18..] == " issues were found";
    m
  }

  /**
    The error `run` returns, if any, for the given arguments, when linting
    the named files finds `issueCount` issues: the argument error, nothing
    when help is asked for, the issue count when it is positive.
  */
  function RunError(rawArgs: seq<string>, issueCount: nat): (e: Option<string>)
  {
    var parsed := Parsed(rawArgs);
    if parsed.1.Some? then Some(ErrorMessage(parsed.1.value))
    else if parsed.0.help then None
    else if issueCount > 0 then Some(IssuesFoundMessage(issueCount))
    else None
  }

  /** The command succeeds iff its arguments parse and help is asked for or no issue is found. */
  lemma RunSucceedsIff(rawArgs: seq<string>, issueCount: nat)
    ensures RunError(rawArgs, issueCount).None?
      <==> Parsed(rawArgs).1.None? && (Parsed(rawArgs).0.help || issueCount == 0)
  {
  }
}
