/**
  The text normaliser of internal/text/wordify.go: it turns identifiers,
  comments and file names into a lower-case word sequence framed by single
  blanks, `" w1 w2 ... wn "`, so that whole-word matching is a substring test.
*/
module Text {
  import opened Strings

  /** Go's `runeCase`: 0, 1 and -1. */
  datatype RuneCase = Neutral | Upper | Lower

  /**
    `runeCaseFrom`: a rune is Upper when upper-casing keeps it and lower-casing
    changes it, Lower the other way round, Neutral when both keep it.
  */
  function RuneCaseFrom(r: char): (k: RuneCase)
    ensures k == Upper <==> 'A' <= r <= 'Z'
    ensures k == Lower <==> 'a' <= r <= 'z'
  {
    var noLowerChange := LowerRune(r) == r;
    var noUpperChange := UpperRune(r) == r;
    if noLowerChange == noUpperChange then Neutral
    else if noUpperChange then Upper
    else Lower
  }

  /** The runes that `removePunctuation` turns into blanks, in its order. */
  const Punctuation: seq<char> := ['.', '?', '!', ';', ':', '-', '/', '(', ')', '\n', '\r']

  /** Reference definition: every punctuation rune replaced by a blank. */
  function Depunctuated(s: string): string {
    seq(|s|, i requires 0 <= i < |s| => if s[i] in Punctuation then ' ' else s[i])
  }

  /** `removePunctuation`: one `strings.ReplaceAll` per punctuation rune. */
  method RemovePunctuation(w0: string) returns (w: string)
    ensures w == Depunctuated(w0)
  {
    w := w0;
    for k := 0 to |Punctuation|
      invariant |w| == |w0|
      invariant forall i :: 0 <= i < |w0| ==>
        w[i] == if w0[i] in Punctuation[..k] then ' ' else w0[i]
    {
      assert Punctuation[..k + 1] == Punctuation[..k] + [Punctuation[k]];
      w := ReplaceAllRune(w, Punctuation[k], ' ');
    }
    assert Punctuation[..|Punctuation|] == Punctuation;
  }

  /** No two blanks are adjacent. */
  predicate NoDoubleBlank(s: string) {
    forall i :: 0 <= i < |s| - 1 ==> !(s[i] == ' ' && s[i + 1] == ' ')
  }

  /** One pass of `strings.ReplaceAll(s, "  ", " ")`, left to right, non-overlapping. */
  function ReplaceDoubleBlanks(s: string): (r: string)
    ensures |r| <= |s|
  {
    if |s| >= 2 && s[0] == ' ' && s[1] == ' ' then " " + ReplaceDoubleBlanks(s[2..])
    else if s == [] then []
    else [s[0]] + ReplaceDoubleBlanks(s[1..])
  }

  /** Reference definition: every run of blanks shrunk to a single blank. */
  function Collapsed(s: string): string {
    if |s| >= 2 && s[0] == ' ' && s[1] == ' ' then Collapsed(s[1..])
    else if s == [] then []
    else [s[0]] + Collapsed(s[1..])
  }

  lemma {:induction false} CollapsedKeepsHead(s: string)
    ensures |Collapsed(s)| == 0 <==> |s| == 0
    ensures s != [] ==> Collapsed(s)[0] == s[0]
  {
    if |s| >= 2 && s[0] == ' ' && s[1] == ' ' {
      CollapsedKeepsHead(s[1..]);
    }
  }

  /** Collapsing blanks leaves no two blanks adjacent. */
  lemma {:induction false} CollapsedHasNoDoubleBlank(s: string)
    ensures NoDoubleBlank(Collapsed(s))
  {
    if |s| >= 2 && s[0] == ' ' && s[1] == ' ' {
      CollapsedHasNoDoubleBlank(s[1..]);
    } else if s != [] {
      CollapsedHasNoDoubleBlank(s[1..]);
      CollapsedKeepsHead(s[1..]);
    }
  }

  lemma {:induction false} CollapsedCons(c: char, t: string)
    ensures Collapsed([c] + t) ==
      if c == ' ' && t != [] && t[0] == ' ' then Collapsed(t) else [c] + Collapsed(t)
  {
    assert ([c] + t)[1..] == t;
  }

  /** One replacement pass does not change what collapsing gives. */
  lemma {:induction false} ReplaceKeepsCollapsed(s: string)
    ensures Collapsed(ReplaceDoubleBlanks(s)) == Collapsed(s)
    decreases |s|
  {
    if |s| >= 2 && s[0] == ' ' && s[1] == ' ' {
      ReplaceKeepsCollapsed(s[2..]);
      CollapsedCons(' ', ReplaceDoubleBlanks(s[2..]));
      CollapsedCons(' ', s[2..]);
      CollapsedKeepsHead(ReplaceDoubleBlanks(s[2..]));
      CollapsedKeepsHead(s[2..]);
      assert s[1..] == [' '] + s[2..];
    } else if s != [] {
      ReplaceKeepsCollapsed(s[1..]);
      CollapsedCons(s[0], ReplaceDoubleBlanks(s[1..]));
      CollapsedCons(s[0], s[1..]);
      CollapsedKeepsHead(ReplaceDoubleBlanks(s[1..]));
      CollapsedKeepsHead(s[1..]);
      assert s == [s[0]] + s[1..];
    }
  }

  /** A pass that does not shorten the string found no double blank. */
  lemma {:induction false} ReplaceFixpoint(s: string)
    requires |ReplaceDoubleBlanks(s)| == |s|
    ensures ReplaceDoubleBlanks(s) == s && NoDoubleBlank(s)
  {
    if |s| >= 2 && s[0] == ' ' && s[1] == ' ' {
    } else if s != [] {
      ReplaceFixpoint(s[1..]);
      assert s == [s[0]] + s[1..];
    }
  }

  lemma {:induction false} CollapsedOfNoDoubleBlank(s: string)
    requires NoDoubleBlank(s)
    ensures Collapsed(s) == s
  {
    if s != [] {
      CollapsedOfNoDoubleBlank(s[1..]);
      assert s == [s[0]] + s[1..];
    }
  }

  /**
    `mergeBlanks`: repeat the replacement until the length stops shrinking.
    The loop terminates because the length strictly decreases.
  */
  method MergeBlanks(w0: string) returns (w: string)
    ensures w == Collapsed(w0)
    ensures NoDoubleBlank(w)
  {
    var ref := w0;
    w := ReplaceDoubleBlanks(ref);
    ReplaceKeepsCollapsed(ref);
    while |w| < |ref|
      invariant w == ReplaceDoubleBlanks(ref)
      invariant Collapsed(ref) == Collapsed(w0) && Collapsed(w) == Collapsed(w0)
      decreases |ref|
    {
      ref := w;
      w := ReplaceDoubleBlanks(ref);
      ReplaceKeepsCollapsed(ref);
    }
    ReplaceFixpoint(ref);
    CollapsedOfNoDoubleBlank(ref);
  }

  /**
    A sub-word starts at index i of a token when an upper-case rune follows a
    non-upper one, or a lower-case rune follows a neutral one.
  */
  predicate Boundary(t: string, i: int) {
    0 < i < |t| &&
    ((RuneCaseFrom(t[i]) == Upper && RuneCaseFrom(t[i - 1]) != Upper) ||
     (RuneCaseFrom(t[i]) == Lower && RuneCaseFrom(t[i - 1]) == Neutral))
  }

  /** Where the sub-word holding index i starts: the last boundary at or before i, or 0. */
  function LastStart(t: string, i: nat): (j: nat)
    ensures j <= i
    ensures j == 0 || Boundary(t, j)
  {
    if i == 0 || Boundary(t, i) then i else LastStart(t, i - 1)
  }

  /** No index after the start and up to `i` is a boundary. */
  lemma {:induction false} LastStartIsLast(t: string, i: nat)
    ensures forall k :: LastStart(t, i) < k <= i ==> !Boundary(t, k)
  {
    if i > 0 && !Boundary(t, i) {
      LastStartIsLast(t, i - 1);
    }
  }

  /** Reference definition: a token cut at every boundary, read from its end. */
  function SubWords(t: string): seq<string>
    decreases |t|
  {
    if t == [] then []
    else
      var j := LastStart(t, |t| - 1);
      SubWords(t[..j]) + [t[j..]]
  }

  /** The sub-words of all tokens, token by token. */
  function AllSubWords(tokens: seq<string>): seq<string> {
    if tokens == [] then []
    else AllSubWords(tokens[..|tokens| - 1]) + SubWords(tokens[|tokens| - 1])
  }

  /** The tokens `Wordify` splits its cleaned input into. */
  function Tokens(s: string): seq<string> {
    Split(Collapsed(Depunctuated(s)), ' ')
  }

  /** The sub-words of `s`, before lower-casing. */
  function Words(s: string): seq<string> {
    AllSubWords(Tokens(s))
  }

  /** Words joined by single blanks and framed by one blank on each side. */
  function Framed(words: seq<string>): string {
    if words == [] then [] else " " + ToLower(Join(words, " ")) + " "
  }

  /** What `Wordify` returns. */
  function Wordified(s: string): string {
    Framed(Words(s))
  }

  lemma AllSubWordsSnoc(tokens: seq<string>, k: nat)
    requires k < |tokens|
    ensures AllSubWords(tokens[..k + 1]) == AllSubWords(tokens[..k]) + SubWords(tokens[k])
  {
    assert tokens[..k + 1][..k] == tokens[..k];
  }

  /** Everything but the last element. */
  function AllButLast<T>(xs: seq<T>): seq<T>
    requires xs != []
  {
    xs[..|xs| - 1]
  }

  /** The last element. */
  function Last<T>(xs: seq<T>): T
    requires xs != []
  {
    xs[|xs| - 1]
  }

  lemma SingleRuneSubWords(c: char)
    ensures SubWords([c]) == [[c]]
  {
    assert [c][..0] == [] && [c][0..] == [c];
  }

  /** Cutting a token short does not move the start of an earlier sub-word. */
  lemma {:induction false} LastStartOfPrefix(t: string, n: nat, i: nat)
    requires i < n <= |t|
    ensures LastStart(t[..n], i) == LastStart(t, i)
  {
    assert Boundary(t[..n], i) == Boundary(t, i);
    if i > 0 && !Boundary(t, i) {
      LastStartOfPrefix(t, n, i - 1);
    }
  }

  /**
    Extending a token by one rune either starts a new sub-word (at a boundary)
    or extends the last one.
  */
  lemma SubWordsSnoc(t: string, i: nat)
    requires 0 < i < |t|
    ensures SubWords(t[..i]) != []
    ensures SubWords(t[..i + 1]) ==
      if Boundary(t, i) then SubWords(t[..i]) + [[t[i]]]
      else AllButLast(SubWords(t[..i])) + [Last(SubWords(t[..i])) + [t[i]]]
  {
    if Boundary(t, i) {
      SnocAtBoundary(t, i);
    } else {
      SnocInside(t, i);
    }
  }

  lemma SnocAtBoundary(t: string, i: nat)
    requires 0 < i < |t| && Boundary(t, i)
    ensures SubWords(t[..i]) != []
    ensures SubWords(t[..i + 1]) == SubWords(t[..i]) + [[t[i]]]
  {
    var u, p := t[..i + 1], t[..i];
    assert LastStart(u, i) == i by { assert Boundary(u, i); }
    SubWordsCut(p, LastStart(p, i - 1));
    assert u[..i] == p && u[i..] == [t[i]];
    SubWordsCut(u, i);
  }

  lemma SnocInside(t: string, i: nat)
    requires 0 < i < |t| && !Boundary(t, i)
    ensures SubWords(t[..i]) != []
    ensures SubWords(t[..i + 1]) == AllButLast(SubWords(t[..i])) + [Last(SubWords(t[..i])) + [t[i]]]
  {
    var u, p := t[..i + 1], t[..i];
    var j := LastStart(t, i - 1);
    assert LastStart(u, i) == j by {
      assert !Boundary(u, i);
      LastStartOfPrefix(t, i + 1, i - 1);
    }
    assert LastStart(p, i - 1) == j by { LastStartOfPrefix(t, i, i - 1); }
    var a, b := SubWords(p[..j]), p[j..];
    assert u[..j] == p[..j];
    assert u[j..] == b + [t[i]];
    SubWordsCut(p, j);
    SubWordsCut(u, j);
    AllButLastSnoc(a, b);
  }

  lemma AllButLastSnoc<T>(xs: seq<T>, y: T)
    ensures AllButLast(xs + [y]) == xs && Last(xs + [y]) == y
  {
  }

  /** The last sub-word of a non-empty token starts at its last start. */
  lemma SubWordsCut(x: string, j: nat)
    requires x != [] && j == LastStart(x, |x| - 1)
    ensures SubWords(x) == SubWords(x[..j]) + [x[j..]]
  {
  }

  /**
    `Wordify`: replace punctuation, merge blanks, split at blanks, split every
    token at case transitions, then lower-case, join and frame the result.
  */
  method Wordify(s: string) returns (r: string)
    ensures r == Wordified(s)
  {
    var w := s;
    w := RemovePunctuation(w);
    w := MergeBlanks(w);

    var oldwords := Split(w, ' ');
    var newwords: seq<string> := [];
    for k := 0 to |oldwords|
      invariant newwords == AllSubWords(oldwords[..k])
    {
      newwords := AppendSubWords(newwords, oldwords[k]);
      AllSubWordsSnoc(oldwords, k);
    }
    assert oldwords[..|oldwords|] == oldwords;
    assert oldwords == Tokens(s);
    if |newwords| == 0 {
      return "";
    }
    r := " " + ToLower(Join(newwords, " ")) + " ";
  }

  /**
    The body of `Wordify`'s token loop: the rune loop with its `addWord`
    closure, which appends every finished sub-word of `word` to `newwords`.
  */
  method AppendSubWords(newwords0: seq<string>, word: string) returns (newwords: seq<string>)
    ensures newwords == newwords0 + SubWords(word)
  {
    newwords := newwords0;
    var currentPart: string := [];
    var lastCase := Neutral;
    for i := 0 to |word|
      invariant RuneLoop(word, i, newwords0, newwords, currentPart, lastCase)
    {
      ghost var newwords1, currentPart1, lastCase1 := newwords, currentPart, lastCase;
      var r := word[i];
      var currentCase := RuneCaseFrom(r);
      var newUpper := currentCase == Upper && lastCase != Upper;
      var newLower := currentCase == Lower && lastCase == Neutral;
      if newUpper || newLower {
        if |currentPart| != 0 {
          newwords := newwords + [currentPart];
          currentPart := [];
        }
      }
      lastCase := currentCase;
      currentPart := currentPart + [r];
      RuneStep(word, i, newwords0, newwords1, currentPart1, lastCase1);
    }
    RuneLoopDone(word, newwords0, newwords, currentPart, lastCase);
    if |currentPart| != 0 {
      newwords := newwords + [currentPart];
      currentPart := [];
    }
  }

  /**
    The rune loop's invariant after `i` runes: the finished sub-words of
    `word[..i]` have been appended, and the last one is still being built.
  */
  ghost predicate RuneLoop(word: string, i: nat, base: seq<string>, newwords: seq<string>,
                           currentPart: string, lastCase: RuneCase) {
    i <= |word| &&
    (i == 0 ==> currentPart == [] && newwords == base && lastCase == Neutral) &&
    (i > 0 ==> SubWords(word[..i]) != [] && lastCase == RuneCaseFrom(word[i - 1]) && currentPart != [] &&
               newwords == base + AllButLast(SubWords(word[..i])) && currentPart == Last(SubWords(word[..i])))
  }

  /** One turn of the rune loop keeps its invariant. */
  lemma RuneStep(word: string, i: nat, base: seq<string>, newwords: seq<string>,
                 currentPart: string, lastCase: RuneCase)
    requires i < |word| && RuneLoop(word, i, base, newwords, currentPart, lastCase)
    ensures var currentCase := RuneCaseFrom(word[i]);
      var cut := (currentCase == Upper && lastCase != Upper) || (currentCase == Lower && lastCase == Neutral);
      RuneLoop(word, i + 1, base,
               if cut && |currentPart| != 0 then newwords + [currentPart] else newwords,
               (if cut && |currentPart| != 0 then [] else currentPart) + [word[i]],
               currentCase)
  {
    var r := word[i];
    if i == 0 {
      SingleRuneSubWords(r);
      assert word[..1] == [r];
    } else {
      SubWordsSnoc(word, i);
      var parts := SubWords(word[..i]);
      assert parts == AllButLast(parts) + [Last(parts)];
    }
  }

  /** When the rune loop ends, the part being built is the last sub-word, if any. */
  lemma RuneLoopDone(word: string, base: seq<string>, newwords: seq<string>,
                     currentPart: string, lastCase: RuneCase)
    requires RuneLoop(word, |word|, base, newwords, currentPart, lastCase)
    ensures (if |currentPart| != 0 then newwords + [currentPart] else newwords) == base + SubWords(word)
  {
    assert word[..|word|] == word;
    if |word| != 0 {
      var parts := SubWords(word);
      assert parts == AllButLast(parts) + [Last(parts)];
    }
  }
}
