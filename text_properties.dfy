/**
  What internal/text/wordify.go promises about `Wordify`'s result: its framing,
  the runes it keeps, and that whole-word matching is a plain substring test.
*/
module TextProperties {
  import opened Strings
  import opened Text

  /** `s` without blanks and without the punctuation `removePunctuation` replaces. */
  function Significant(s: string): string {
    if s == [] then []
    else (if s[0] == ' ' || s[0] in Punctuation then [] else [s[0]]) + Significant(s[1..])
  }

  /** Non-empty words without blanks. */
  predicate WellFormed(ws: seq<string>) {
    forall k :: 0 <= k < |ws| ==> ws[k] != [] && ' ' !in ws[k]
  }

  /** Words joined by single blanks, one blank before and after. */
  function Ring(vs: seq<string>): string {
    " " + Join(vs, " ") + " "
  }

  /** Every word lower-cased. */
  function LowerAll(ws: seq<string>): (vs: seq<string>)
    ensures |vs| == |ws|
    ensures forall k :: 0 <= k < |ws| ==> vs[k] == ToLower(ws[k])
  {
    if ws == [] then [] else [ToLower(ws[0])] + LowerAll(ws[1..])
  }

  /** A word holds no boundary between its runes. */
  predicate NoInnerBoundary(w: string) {
    forall i :: 0 < i < |w| ==> !Boundary(w, i)
  }

  // ---------------------------------------------------------------------
  // Runes, blanks and punctuation

  lemma LowerRuneKeepsClass(c: char)
    ensures LowerRune(c) == ' ' <==> c == ' '
    ensures LowerRune(c) in Punctuation <==> c in Punctuation
  {
  }

  lemma {:induction false} SignificantRunes(s: string)
    ensures forall c :: c in Significant(s) ==> c != ' ' && c !in Punctuation
  {
    if s != [] {
      SignificantRunes(s[1..]);
    }
  }

  lemma {:induction false} WithoutToLower(x: string)
    ensures Without(ToLower(x), ' ') == ToLower(Without(x, ' '))
  {
    if x != [] {
      WithoutToLower(x[1..]);
      LowerRuneKeepsClass(x[0]);
      assert ToLower(x)[1..] == ToLower(x[1..]);
      ToLowerAppend(if x[0] == ' ' then [] else [x[0]], Without(x[1..], ' '));
    }
  }

  lemma {:induction false} InWithout(x: string, c: char, d: char)
    requires c in x && c != d
    ensures c in Without(x, d)
  {
    if x[0] != c {
      InWithout(x[1..], c, d);
    }
  }

  lemma {:induction false} InConcat(ws: seq<string>, k: nat, c: char)
    requires k < |ws| && c in ws[k]
    ensures c in Concat(ws)
  {
    if k > 0 {
      InConcat(ws[1..], k - 1, c);
    }
  }

  // ---------------------------------------------------------------------
  // From the input to the sub-words

  lemma DepunctuatedCons(s: string)
    requires s != []
    ensures Depunctuated(s) == [if s[0] in Punctuation then ' ' else s[0]] + Depunctuated(s[1..])
  {
  }

  lemma {:induction false} WithoutDepunctuated(s: string)
    ensures Without(Depunctuated(s), ' ') == Significant(s)
  {
    if s != [] {
      DepunctuatedCons(s);
      WithoutDepunctuated(s[1..]);
      var d := Depunctuated(s);
      assert d[1..] == Depunctuated(s[1..]);
    }
  }

  lemma {:induction false} WithoutCollapsed(x: string)
    ensures Without(Collapsed(x), ' ') == Without(x, ' ')
  {
    if |x| >= 2 && x[0] == ' ' && x[1] == ' ' {
      WithoutCollapsed(x[1..]);
    } else if x != [] {
      WithoutCollapsed(x[1..]);
      assert ([x[0]] + Collapsed(x[1..]))[1..] == Collapsed(x[1..]);
    }
  }

  lemma {:induction false} ConcatSplit(x: string, c: char)
    ensures Concat(Split(x, c)) == Without(x, c)
  {
    if x != [] {
      ConcatSplit(x[1..], c);
      if x[0] != c {
        var rest := Split(x[1..], c);
        assert Concat(rest) == rest[0] + Concat(rest[1..]);
      }
    }
  }

  /** A token is exactly its sub-words glued together, each non-empty and without inner boundary. */
  lemma {:induction false} SubWordsFacts(t: string)
    ensures Concat(SubWords(t)) == t
    ensures forall k :: 0 <= k < |SubWords(t)| ==>
      SubWords(t)[k] != [] && NoInnerBoundary(SubWords(t)[k])
    decreases |t|
  {
    if t != [] {
      var j := LastStart(t, |t| - 1);
      var head, tail := t[..j], t[j..];
      SubWordsCut(t, j);
      LastPieceWhole(t, j);
      SubWordsFacts(head);
      var hs := SubWords(head);
      ConcatAppend(hs, [tail]);
      assert Concat([tail]) == tail;
      assert head + tail == t;
      SnocWhole(hs, tail);
    }
  }

  /** The last sub-word of a non-empty text is non-empty and holds no boundary. */
  lemma LastPieceWhole(t: string, j: nat)
    requires t != [] && j == LastStart(t, |t| - 1)
    ensures t[j..] != [] && NoInnerBoundary(t[j..])
  {
    LastStartIsLast(t, |t| - 1);
    forall i | 0 < i < |t[j..]| ensures !Boundary(t[j..], i) {
      assert Boundary(t[j..], i) == Boundary(t, j + i);
    }
  }

  lemma SnocWhole(hs: seq<string>, w: string)
    requires forall k :: 0 <= k < |hs| ==> hs[k] != [] && NoInnerBoundary(hs[k])
    requires w != [] && NoInnerBoundary(w)
    ensures forall k :: 0 <= k < |hs + [w]| ==> (hs + [w])[k] != [] && NoInnerBoundary((hs + [w])[k])
  {
    forall k | 0 <= k < |hs + [w]| ensures (hs + [w])[k] != [] && NoInnerBoundary((hs + [w])[k]) {
      if k < |hs| {
        assert (hs + [w])[k] == hs[k];
      }
    }
  }

  lemma {:induction false} AllSubWordsFacts(ts: seq<string>)
    ensures Concat(AllSubWords(ts)) == Concat(ts)
    ensures forall k :: 0 <= k < |AllSubWords(ts)| ==>
      AllSubWords(ts)[k] != [] && NoInnerBoundary(AllSubWords(ts)[k])
  {
    if ts != [] {
      var n := |ts| - 1;
      AllSubWordsFacts(ts[..n]);
      SubWordsFacts(ts[n]);
      ConcatAppend(AllSubWords(ts[..n]), SubWords(ts[n]));
      ConcatAppend(ts[..n], [ts[n]]);
      assert ts[..n] + [ts[n]] == ts;
      assert Concat([ts[n]]) == ts[n] + Concat([]);
    }
  }

  /**
    The sub-words of `s`, glued together, are `s` without blanks and
    punctuation; none of them is empty or holds a blank.
  */
  lemma WordsFacts(s: string)
    ensures Concat(Words(s)) == Significant(s)
    ensures WellFormed(Words(s))
    ensures forall k :: 0 <= k < |Words(s)| ==>
      NoInnerBoundary(Words(s)[k]) && forall c :: c in Words(s)[k] ==> c !in Punctuation
  {
    var x := Collapsed(Depunctuated(s));
    AllSubWordsFacts(Tokens(s));
    ConcatSplit(x, ' ');
    WithoutCollapsed(Depunctuated(s));
    WithoutDepunctuated(s);
    SignificantRunes(s);
    var ws := Words(s);
    assert ws == AllSubWords(Tokens(s));
    forall k, c | 0 <= k < |ws| && c in ws[k] ensures c != ' ' && c !in Punctuation {
      InConcat(ws, k, c);
    }
    forall k | 0 <= k < |ws| ensures ws[k] != [] && ' ' !in ws[k] {
      if ' ' in ws[k] {
        InConcat(ws, k, ' ');
      }
    }
  }

  // ---------------------------------------------------------------------
  // Joined words

  lemma {:induction false} ToLowerJoin(ws: seq<string>)
    ensures ToLower(Join(ws, " ")) == Join(LowerAll(ws), " ")
  {
    if |ws| > 1 {
      ToLowerJoin(ws[1..]);
      ToLowerAppend(ws[0] + " ", Join(ws[1..], " "));
      ToLowerAppend(ws[0], " ");
      assert LowerAll(ws)[1..] == LowerAll(ws[1..]);
    }
  }

  lemma LowerAllWellFormed(ws: seq<string>)
    requires WellFormed(ws)
    ensures WellFormed(LowerAll(ws))
  {
    forall k | 0 <= k < |ws| ensures ' ' !in ToLower(ws[k]) {
      forall i | 0 <= i < |ws[k]| ensures ToLower(ws[k])[i] != ' ' {
        LowerRuneKeepsClass(ws[k][i]);
      }
    }
  }

  lemma {:induction false} ConcatLowerAll(ws: seq<string>)
    ensures Concat(LowerAll(ws)) == ToLower(Concat(ws))
  {
    if ws != [] {
      ConcatLowerAll(ws[1..]);
      ToLowerAppend(ws[0], Concat(ws[1..]));
      assert LowerAll(ws)[1..] == LowerAll(ws[1..]);
    }
  }

  lemma {:induction false} WithoutJoin(vs: seq<string>)
    requires WellFormed(vs)
    ensures Without(Join(vs, " "), ' ') == Concat(vs)
  {
    if |vs| == 1 {
      WithoutAbsent(vs[0], ' ');
      assert Concat(vs) == vs[0] + Concat([]);
    } else if |vs| > 1 {
      WithoutJoin(vs[1..]);
      WithoutAbsent(vs[0], ' ');
      WithoutAppend(vs[0] + " ", Join(vs[1..], " "), ' ');
      WithoutAppend(vs[0], " ", ' ');
    }
  }

  lemma RingCons(v: string, vs: seq<string>)
    requires vs != []
    ensures Ring([v] + vs) == " " + v + Ring(vs)
  {
    assert ([v] + vs)[1..] == vs;
  }

  lemma {:induction false} RingNoDoubleBlank(vs: seq<string>)
    requires vs != [] && WellFormed(vs)
    ensures NoDoubleBlank(Ring(vs))
  {
    var v := vs[0];
    var rest: string := if |vs| == 1 then " " else Ring(vs[1..]);
    if |vs| == 1 {
      assert Ring(vs) == " " + v + " ";
    } else {
      RingNoDoubleBlank(vs[1..]);
      RingCons(v, vs[1..]);
      assert [v] + vs[1..] == vs;
    }
    assert Ring(vs) == " " + v + rest;
    var r := Ring(vs);
    forall i | 0 <= i < |r| - 1 ensures !(r[i] == ' ' && r[i + 1] == ' ') {
      if i == 0 {
        assert r[1] == v[0];
      } else if i < |v| {
        assert r[i] == v[i - 1];
      } else {
        assert r[i + 1] == rest[i - |v|];
        if i > |v| {
          assert r[i] == rest[i - |v| - 1];
        }
      }
    }
  }

  lemma {:induction false} JoinLength(vs: seq<string>)
    requires vs != []
    ensures |Join(vs, " ")| >= |vs[0]|
  {
    if |vs| > 1 {
      JoinLength(vs[1..]);
    }
  }

  // ---------------------------------------------------------------------
  // The promises about Wordify's result

  lemma WordifiedIsRing(s: string)
    ensures Words(s) == [] ==> Wordified(s) == ""
    ensures Words(s) != [] ==> Wordified(s) == Ring(LowerAll(Words(s)))
    ensures WellFormed(LowerAll(Words(s)))
  {
    WordsFacts(s);
    ToLowerJoin(Words(s));
    LowerAllWellFormed(Words(s));
  }

  /**
    Removing the blanks from the result gives the lower-cased input without
    its blanks and punctuation: no rune is lost, reordered or invented.
  */
  lemma WordifyKeepsRunes(s: string)
    ensures Without(Wordified(s), ' ') == ToLower(Significant(s))
  {
    WordsFacts(s);
    WordifiedIsRing(s);
    var ws := Words(s);
    if ws != [] {
      var vs := LowerAll(ws);
      WithoutAppend(" " + Join(vs, " "), " ", ' ');
      WithoutAppend(" ", Join(vs, " "), ' ');
      WithoutJoin(vs);
      ConcatLowerAll(ws);
    }
  }

  /** The result is empty exactly when the input holds only blanks and punctuation. */
  lemma WordifyEmptyIff(s: string)
    ensures Wordified(s) == "" <==> forall i :: 0 <= i < |s| ==> s[i] == ' ' || s[i] in Punctuation
  {
    WordsFacts(s);
    WordifiedIsRing(s);
    SignificantEmptyIff(s);
    var ws := Words(s);
    if ws != [] {
      assert Concat(ws) == ws[0] + Concat(ws[1..]);
      assert Significant(s) != [];
    }
  }

  lemma {:induction false} SignificantEmptyIff(s: string)
    ensures Significant(s) == [] <==> forall i :: 0 <= i < |s| ==> s[i] == ' ' || s[i] in Punctuation
  {
    if s != [] {
      SignificantEmptyIff(s[1..]);
      if Significant(s) == [] {
        forall i | 0 <= i < |s| ensures s[i] == ' ' || s[i] in Punctuation {
          if i > 0 {
            assert s[i] == s[1..][i - 1];
          }
        }
      } else if forall i :: 0 <= i < |s| ==> s[i] == ' ' || s[i] in Punctuation {
        forall i | 0 <= i < |s| - 1 ensures s[1..][i] == ' ' || s[1..][i] in Punctuation {
          assert s[1..][i] == s[i + 1];
        }
      }
    }
  }

  /**
    The result is empty, or starts and ends with exactly one blank, holds no
    two adjacent blanks and no punctuation.
  */
  lemma WordifyShape(s: string)
    ensures var r := Wordified(s);
      r == "" || (|r| >= 3 && r[0] == ' ' && r[1] != ' ' && r[|r| - 2] != ' ' && r[|r| - 1] == ' ')
    ensures NoDoubleBlank(Wordified(s))
  {
    WordifiedIsRing(s);
    var r := Wordified(s);
    if Words(s) != [] {
      var vs := LowerAll(Words(s));
      RingNoDoubleBlank(vs);
      JoinLength(vs);
      assert r == Ring(vs);
      assert |r| >= 3;
      assert r[0] == ' ' && r[|r| - 1] == ' ';
      assert r[1] != ' ' && r[|r| - 2] != ' ';
    }
  }

  /** A rune Wordify never emits: an upper-case letter or punctuation. */
  predicate Foreign(c: char) {
    'A' <= c <= 'Z' || c in Punctuation
  }

  /** The result holds neither punctuation nor upper-case letters. */
  lemma WordifyRunes(s: string)
    ensures forall c :: c in Wordified(s) ==> !Foreign(c)
  {
    forall c | c in Wordified(s) ensures !Foreign(c) {
      if c != ' ' {
        WordifiedRune(s, c);
      }
    }
  }

  lemma WordifiedRune(s: string, c: char)
    requires c in Wordified(s) && c != ' '
    ensures !Foreign(c)
  {
    WordifyKeepsRunes(s);
    InWithout(Wordified(s), c, ' ');
    var t := Significant(s);
    assert c in ToLower(t);
    var i :| 0 <= i < |t| && ToLower(t)[i] == c;
    SignificantRunes(s);
    assert t[i] in t;
    LowerRuneKeepsClass(t[i]);
  }

  // ---------------------------------------------------------------------
  // Whole-word matching

  /** `Ring(vs)` is its first word, framed, followed by the ring of the rest (or one blank). */
  lemma RingSplit(vs: seq<string>)
    requires vs != []
    ensures |vs| == 1 ==> Ring(vs) == " " + vs[0] + " "
    ensures |vs| > 1 ==> Ring(vs) == " " + vs[0] + Ring(vs[1..])
  {
    if |vs| > 1 {
      RingCons(vs[0], vs[1..]);
      assert [vs[0]] + vs[1..] == vs;
    }
  }

  /** `ys` occurs in `vs` as a run of adjacent words starting at index `i`. */
  predicate RunAt(vs: seq<string>, ys: seq<string>, i: int) {
    0 <= i && i + |ys| <= |vs| && vs[i..i + |ys|] == ys
  }

  /**
    A framed run found at the start of `" " + v + rest` opens with `v`, and
    what follows its first word is found at the start of `rest`.
  */
  lemma FramedAtStart(v: string, rest: string, x: string, restX: string)
    requires v != [] && ' ' !in v && ' ' !in x
    requires rest != [] && rest[0] == ' ' && restX != [] && restX[0] == ' '
    requires OccursAt(" " + v + rest, " " + x + restX, 0)
    ensures x == v && OccursAt(rest, restX, 0)
  {
    var r, pat := " " + v + rest, " " + x + restX;
    assert forall i :: 0 <= i < |pat| ==> r[i] == pat[i];
    assert forall i :: 1 <= i <= |v| ==> r[i] == v[i - 1];
    assert forall i :: 1 <= i <= |x| ==> pat[i] == x[i - 1];
    assert r[|v| + 1] == ' ' && pat[|x| + 1] == ' ';
    assert |x| == |v|;
    assert forall i :: 0 <= i < |x| ==> x[i] == r[i + 1] == v[i];
    assert rest[..|restX|] == r[|v| + 1..|pat|] == pat[|v| + 1..] == restX;
  }

  /** A framed text found after the start of `" " + v + rest` is found in `rest`. */
  lemma FramedLater(v: string, rest: string, pat: string, p: int)
    requires ' ' !in v && p > 0 && pat != [] && pat[0] == ' '
    requires OccursAt(" " + v + rest, pat, p)
    ensures OccursAt(rest, pat, p - |v| - 1)
  {
    var r := " " + v + rest;
    assert r[p] == pat[0] == ' ';
    if p <= |v| {
      assert false;
    }
    var q := p - |v| - 1;
    assert r[p..p + |pat|] == rest[q..q + |pat|];
  }

  /** Putting a first word in front of `rest` and of its prefix keeps the prefix. */
  lemma FramedFirst(v: string, rest: string, restX: string)
    requires OccursAt(rest, restX, 0)
    ensures OccursAt(" " + v + rest, " " + v + restX, 0)
  {
    assert (" " + v + rest)[..|v| + 1 + |restX|] == " " + v + rest[..|restX|];
  }

  lemma OccursAfter(v: string, rest: string, pat: string, q: int)
    requires OccursAt(rest, pat, q)
    ensures OccursAt(" " + v + rest, pat, q + |v| + 1)
  {
    var r, d := " " + v + rest, |v| + 1;
    assert r[q + d..q + d + |pat|] == rest[q..q + |pat|];
  }

  /** A framed run found at the start of the framed form is a prefix of its words. */
  lemma {:induction false} RingPrefix(vs: seq<string>, ys: seq<string>)
    requires vs != [] && WellFormed(vs) && ys != [] && WellFormed(ys)
    requires OccursAt(Ring(vs), Ring(ys), 0)
    ensures RunAt(vs, ys, 0)
  {
    RingSplit(vs);
    RingSplit(ys);
    var restV: string := if |vs| == 1 then " " else Ring(vs[1..]);
    var restY: string := if |ys| == 1 then " " else Ring(ys[1..]);
    assert Ring(vs) == " " + vs[0] + restV;
    assert Ring(ys) == " " + ys[0] + restY;
    FramedAtStart(vs[0], restV, ys[0], restY);
    if |ys| > 1 {
      if |vs| == 1 {
        assert false;
      }
      RingPrefix(vs[1..], ys[1..]);
      assert vs[..|ys|] == [vs[0]] + vs[1..][..|ys| - 1];
      assert ys == [ys[0]] + ys[1..];
    } else {
      assert vs[..1] == [vs[0]];
    }
  }

  /** A framed run found anywhere in the framed form is a run of its words. */
  lemma {:induction false} RingOccurrence(vs: seq<string>, ys: seq<string>, p: int)
    requires vs != [] && WellFormed(vs) && ys != [] && WellFormed(ys)
    requires OccursAt(Ring(vs), Ring(ys), p)
    ensures exists i :: RunAt(vs, ys, i)
  {
    if p == 0 {
      RingPrefix(vs, ys);
    } else {
      RingSplit(vs);
      var v := vs[0];
      var rest: string := if |vs| == 1 then " " else Ring(vs[1..]);
      assert Ring(vs) == " " + v + rest;
      FramedLater(v, rest, Ring(ys), p);
      if |vs| == 1 {
        assert false;
      }
      RingOccurrence(vs[1..], ys, p - |v| - 1);
      var i :| RunAt(vs[1..], ys, i);
      assert vs[i + 1..i + 1 + |ys|] == vs[1..][i..i + |ys|];
      assert RunAt(vs, ys, i + 1);
    }
  }

  /** A prefix of the words occurs framed at the start of the framed form. */
  lemma {:induction false} RingHasPrefix(vs: seq<string>, ys: seq<string>)
    requires ys != [] && RunAt(vs, ys, 0)
    ensures OccursAt(Ring(vs), Ring(ys), 0)
  {
    RingSplit(vs);
    RingSplit(ys);
    var restV: string := if |vs| == 1 then " " else Ring(vs[1..]);
    var restY: string := if |ys| == 1 then " " else Ring(ys[1..]);
    assert Ring(vs) == " " + vs[0] + restV;
    assert Ring(ys) == " " + ys[0] + restY;
    assert ys[0] == vs[..|ys|][0] == vs[0];
    if |ys| > 1 {
      assert vs[1..][..|ys| - 1] == vs[..|ys|][1..];
      RingHasPrefix(vs[1..], ys[1..]);
    } else {
      assert restV[..1] == " ";
    }
    FramedFirst(vs[0], restV, restY);
  }

  /** A run of adjacent words occurs framed in the framed form. */
  lemma {:induction false} RingHasRun(vs: seq<string>, ys: seq<string>, i: int)
    requires ys != [] && RunAt(vs, ys, i)
    ensures exists p :: OccursAt(Ring(vs), Ring(ys), p)
  {
    if i == 0 {
      RingHasPrefix(vs, ys);
    } else {
      RingSplit(vs);
      var rest := Ring(vs[1..]);
      assert vs[1..][i - 1..i - 1 + |ys|] == vs[i..i + |ys|];
      RingHasRun(vs[1..], ys, i - 1);
      var q :| OccursAt(rest, Ring(ys), q);
      OccursAfter(vs[0], rest, Ring(ys), q);
    }
  }

  /**
    Matching a synonym of one or more words, such as "man hours", against
    Wordify's result with `strings.Contains(worded, " "+synonym+" ")` finds
    it exactly when its words occur next to each other, in order, among the
    lower-cased sub-words of the input.
  */
  lemma PhraseMatch(s: string, ys: seq<string>)
    requires ys != [] && WellFormed(ys)
    ensures Contains(Wordified(s), " " + Join(ys, " ") + " ") <==> exists i :: RunAt(LowerAll(Words(s)), ys, i)
  {
    WordifiedIsRing(s);
    var vs := LowerAll(Words(s));
    assert " " + Join(ys, " ") + " " == Ring(ys);
    ContainsIffOccurs(Wordified(s), Ring(ys));
    if Words(s) == [] {
      forall p | OccursAt(Wordified(s), Ring(ys), p) ensures false {
      }
    } else {
      if Contains(Wordified(s), Ring(ys)) {
        var p :| OccursAt(Ring(vs), Ring(ys), p);
        RingOccurrence(vs, ys, p);
      }
      if exists i :: RunAt(vs, ys, i) {
        var i :| RunAt(vs, ys, i);
        RingHasRun(vs, ys, i);
      }
    }
  }

  /**
    The one-word case: a blank-free synonym matches exactly the synonyms
    that equal one of the lower-cased sub-words of the input, never part of
    a word.
  */
  lemma WholeWordMatch(s: string, x: string)
    requires x != [] && ' ' !in x
    ensures Contains(Wordified(s), " " + x + " ") <==> x in LowerAll(Words(s))
  {
    assert Join([x], " ") == x;
    PhraseMatch(s, [x]);
    RunOfOne(LowerAll(Words(s)), x);
  }

  /** A run of one word is an occurrence of that word. */
  lemma RunOfOne(vs: seq<string>, x: string)
    ensures x in vs <==> exists i :: RunAt(vs, [x], i)
  {
    if x in vs {
      var k :| 0 <= k < |vs| && vs[k] == x;
      assert vs[k..k + 1] == [x];
      assert RunAt(vs, [x], k);
    }
    if exists i :: RunAt(vs, [x], i) {
      var i :| RunAt(vs, [x], i);
      assert vs[i] == vs[i..i + 1][0] == x;
    }
  }

  lemma {:induction false} AbsentRuneNoMatch(r: string, pat: string, i: nat)
    requires i < |pat| && pat[i] !in r
    ensures !Contains(r, pat)
  {
    ContainsIffOccurs(r, pat);
    forall p ensures !OccursAt(r, pat, p) {
      if 0 <= p && p + |pat| <= |r| {
        assert r[p..p + |pat|][i] == r[p + i];
      }
    }
  }

  lemma {:induction false} DoubleBlankNoMatch(r: string, pat: string, i: nat)
    requires i + 1 < |pat| && pat[i] == ' ' && pat[i + 1] == ' ' && NoDoubleBlank(r)
    ensures !Contains(r, pat)
  {
    ContainsIffOccurs(r, pat);
    forall p ensures !OccursAt(r, pat, p) {
      if 0 <= p && p + |pat| <= |r| {
        assert r[p..p + |pat|][i] == r[p + i];
        assert r[p..p + |pat|][i + 1] == r[p + i + 1];
      }
    }
  }

  lemma ForeignNoMatch(r: string, x: string, i: nat)
    requires forall c :: c in r ==> !Foreign(c)
    requires i < |x| && Foreign(x[i])
    ensures !Contains(r, " " + x + " ")
  {
    var pat := " " + x + " ";
    assert pat[i + 1] == x[i];
    AbsentRuneNoMatch(r, pat, i + 1);
  }

  /** A synonym holding an upper-case letter or punctuation never matches. */
  lemma NeverMatchesRune(s: string, x: string, i: nat)
    requires i < |x| && Foreign(x[i])
    ensures !Contains(Wordified(s), " " + x + " ")
  {
    WordifyRunes(s);
    ForeignNoMatch(Wordified(s), x, i);
  }

  /** A synonym holding two adjacent blanks never matches. */
  lemma NeverMatchesDoubleBlank(s: string, x: string, i: nat)
    requires i + 1 < |x| && x[i] == ' ' && x[i + 1] == ' '
    ensures !Contains(Wordified(s), " " + x + " ")
  {
    var pat := " " + x + " ";
    WordifyShape(s);
    assert pat[i + 1] == x[i] && pat[i + 2] == x[i + 1];
    DoubleBlankNoMatch(Wordified(s), pat, i + 1);
  }

  /** The empty synonym never matches: the result never holds two adjacent blanks. */
  lemma EmptySynonymNeverMatches(s: string)
    ensures !Contains(Wordified(s), "  ")
  {
    WordifyShape(s);
    DoubleBlankNoMatch(Wordified(s), "  ", 0);
  }

  // ---------------------------------------------------------------------
  // Idempotence

  lemma DepunctuatedOfClean(x: string)
    requires forall c :: c in x ==> !Foreign(c)
    ensures Depunctuated(x) == x
  {
    forall i | 0 <= i < |x| ensures Depunctuated(x)[i] == x[i] {
      assert x[i] in x;
    }
  }

  /** Lower-casing never creates a boundary. */
  lemma LowerBoundary(w: string, i: int)
    requires Boundary(ToLower(w), i)
    ensures Boundary(w, i)
  {
  }

  lemma SubWordsOfWhole(w: string)
    requires w != [] && NoInnerBoundary(w)
    ensures SubWords(w) == [w]
  {
    assert LastStart(w, |w| - 1) == 0;
    assert w[..0] == [] && w[0..] == w;
  }

  lemma {:induction false} AllSubWordsAppend(a: seq<string>, b: seq<string>)
    ensures AllSubWords(a + b) == AllSubWords(a) + AllSubWords(b)
  {
    if b == [] {
      assert a + b == a;
    } else {
      var n := |b| - 1;
      AllSubWordsAppend(a, b[..n]);
      assert (a + b)[..|a + b| - 1] == a + b[..n] && (a + b)[|a + b| - 1] == b[n];
      var x, y, z := AllSubWords(a), AllSubWords(b[..n]), SubWords(b[n]);
      assert AllSubWords(a + b) == (x + y) + z;
      assert AllSubWords(b) == y + z;
      assert (x + y) + z == x + (y + z);
    }
  }

  lemma {:induction false} AllSubWordsOfWholeWords(vs: seq<string>)
    requires forall k :: 0 <= k < |vs| ==> vs[k] != [] && NoInnerBoundary(vs[k])
    ensures AllSubWords(vs) == vs
  {
    if vs != [] {
      var n := |vs| - 1;
      var init := vs[..n];
      forall k | 0 <= k < |init| ensures init[k] != [] && NoInnerBoundary(init[k]) {
        assert init[k] == vs[k];
      }
      AllSubWordsOfWholeWords(init);
      SubWordsOfWhole(vs[n]);
      AllSubWordsSnoc(vs, n);
      assert vs[..n + 1] == vs;
      assert init + [vs[n]] == vs;
    }
  }

  lemma LowerAllTwice(ws: seq<string>)
    ensures LowerAll(LowerAll(ws)) == LowerAll(ws)
  {
    var vs := LowerAll(ws);
    forall k | 0 <= k < |ws| ensures ToLower(vs[k]) == vs[k] {
    }
  }

  /** Splitting a ring at its blanks gives its words with an empty token at each end. */
  lemma RingTokens(vs: seq<string>)
    requires vs != [] && WellFormed(vs)
    ensures Split(Ring(vs), ' ') == [[]] + vs + [[]]
  {
    var j := Join(vs, " ");
    SplitAround([], j + [' '], ' ');
    SplitAround(j, [], ' ');
    SplitJoinRoundTrip(vs, ' ');
    assert Ring(vs) == [] + [' '] + (j + [' ']);
    assert j + [' '] == j + [' '] + [];
  }

  /** Lower-cased whole words are still whole words. */
  lemma LowerWordsWhole(ws: seq<string>)
    requires forall k :: 0 <= k < |ws| ==> ws[k] != [] && NoInnerBoundary(ws[k])
    ensures forall k :: 0 <= k < |LowerAll(ws)| ==> LowerAll(ws)[k] != [] && NoInnerBoundary(LowerAll(ws)[k])
  {
    var vs := LowerAll(ws);
    forall k | 0 <= k < |vs| ensures vs[k] != [] && NoInnerBoundary(vs[k]) {
      forall i | 0 < i < |vs[k]| ensures !Boundary(vs[k], i) {
        if Boundary(vs[k], i) {
          LowerBoundary(ws[k], i);
        }
      }
    }
  }

  /** The words of a framed list of whole words are those words. */
  lemma WordsOfRing(vs: seq<string>)
    requires vs != [] && WellFormed(vs)
    requires forall k :: 0 <= k < |vs| ==> NoInnerBoundary(vs[k])
    requires forall c :: c in Ring(vs) ==> !Foreign(c)
    ensures Words(Ring(vs)) == vs
  {
    var r := Ring(vs);
    RingNoDoubleBlank(vs);
    DepunctuatedOfClean(r);
    CollapsedOfNoDoubleBlank(r);
    RingTokens(vs);
    assert Tokens(r) == [[]] + vs + [[]];
    AllSubWordsAppend([[]] + vs, [[]]);
    AllSubWordsAppend([[]], vs);
    assert AllSubWords([[]]) == AllSubWords([]) + SubWords([]);
    AllSubWordsOfWholeWords(vs);
  }

  /** Applying Wordify to its own result changes nothing. */
  lemma WordifyIdempotent(s: string)
    ensures Wordified(Wordified(s)) == Wordified(s)
  {
    var r := Wordified(s);
    WordifiedIsRing(s);
    WordsFacts(s);
    if Words(s) == [] {
      assert Tokens("") == [[]];
      assert AllSubWords([[]]) == AllSubWords([]) + SubWords([]);
    } else {
      var ws := Words(s);
      var vs := LowerAll(ws);
      WordifyRunes(s);
      LowerWordsWhole(ws);
      WordsOfRing(vs);
      LowerAllTwice(ws);
      ToLowerJoin(vs);
    }
  }
}
