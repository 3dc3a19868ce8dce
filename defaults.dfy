/**
  The built-in phrase table of settings.go: phrase builders and the English
  defaults.
*/
module Defaults {
  import opened Wrappers
  import opened Config

  /** The phrase field a builder appends to. */
  datatype Kind = SynonymKind | AlternativeKind | ReferenceKind

  /**
    The closure returned by `synonyms(s...)`, `alternatives(s...)` or
    `references(s...)`, represented by what it appends and where.
  */
  datatype Modifier = Modifier(kind: Kind, words: seq<string>)

  function Synonyms(words: seq<string>): Modifier { Modifier(SynonymKind, words) }
  function Alternatives(words: seq<string>): Modifier { Modifier(AlternativeKind, words) }
  function References(words: seq<string>): Modifier { Modifier(ReferenceKind, words) }

  /** The phrase's field that `kind` names. */
  function FieldOf(p: Phrase, kind: Kind): seq<string> {
    match kind
    case SynonymKind => p.synonyms
    case AlternativeKind => p.alternatives
    case ReferenceKind => p.references
  }

  /** Calling the closure: its words are appended to one field, and only that one. */
  function Apply(m: Modifier, p: Phrase): (q: Phrase)
    ensures FieldOf(q, m.kind) == FieldOf(p, m.kind) + m.words
    ensures forall k :: k != m.kind ==> FieldOf(q, k) == FieldOf(p, k)
  {
    match m.kind
    case SynonymKind => p.(synonyms := p.synonyms + m.words)
    case AlternativeKind => p.(alternatives := p.alternatives + m.words)
    case ReferenceKind => p.(references := p.references + m.words)
  }

  /** The words of all modifiers of the given kind, in the order given. */
  function Gathered(mods: seq<Modifier>, kind: Kind): seq<string> {
    if mods == [] then []
    else (if mods[0].kind == kind then mods[0].words else []) + Gathered(mods[1..], kind)
  }

  const EmptyPhrase := Phrase([], [], [])

  /** `phraseWith`: start from the empty phrase and apply the modifiers left to right. */
  method PhraseWith(mods: seq<Modifier>) returns (p: Phrase)
    ensures p.synonyms == Gathered(mods, SynonymKind)
    ensures p.alternatives == Gathered(mods, AlternativeKind)
    ensures p.references == Gathered(mods, ReferenceKind)
  {
    p := EmptyPhrase;
    for i := 0 to |mods|
      invariant forall k :: FieldOf(p, k) == Gathered(mods[..i], k)
    {
      assert mods[..i + 1] == mods[..i] + [mods[i]];
      forall k ensures Gathered(mods[..i + 1], k) == Gathered(mods[..i], k) + FieldOf(Apply(mods[i], p), k)[|FieldOf(p, k)|..] {
        GatheredSnoc(mods[..i], mods[i], k);
      }
      p := Apply(mods[i], p);
    }
    assert mods[..|mods|] == mods;
    assert FieldOf(p, SynonymKind) == p.synonyms;
    assert FieldOf(p, AlternativeKind) == p.alternatives;
  }

  /** The words one modifier contributes to the field of `kind`. */
  function Contributed(m: Modifier, kind: Kind): seq<string> {
    if m.kind == kind then m.words else []
  }

  lemma GatheredCons(m: Modifier, rest: seq<Modifier>, kind: Kind)
    ensures Gathered([m] + rest, kind) == Contributed(m, kind) + Gathered(rest, kind)
  {
    assert ([m] + rest)[1..] == rest;
  }

  /** Gathering over a concatenation gathers each part. */
  lemma {:induction false} GatheredAppend(a: seq<Modifier>, b: seq<Modifier>, kind: Kind)
    ensures Gathered(a + b, kind) == Gathered(a, kind) + Gathered(b, kind)
  {
    if a == [] {
      assert a + b == b;
    } else {
      var m, t := a[0], a[1..];
      assert a == [m] + t;
      assert a + b == [m] + (t + b);
      GatheredAppend(t, b, kind);
      GatheredCons(m, t + b, kind);
      GatheredCons(m, t, kind);
      var c, gt, gb := Contributed(m, kind), Gathered(t, kind), Gathered(b, kind);
      assert c + (gt + gb) == (c + gt) + gb;
    }
  }

  /** Applying one more builder extends only the field of its kind. */
  lemma GatheredSnoc(mods: seq<Modifier>, m: Modifier, kind: Kind)
    ensures Gathered(mods + [m], kind) == Gathered(mods, kind) + (if m.kind == kind then m.words else [])
  {
    GatheredAppend(mods, [m], kind);
    GatheredCons(m, [], kind);
    assert [m] + [] == [m];
  }

  /**
    Each field of the built phrase holds exactly the words of the modifiers of
    its kind: builders of other kinds never touch it, and the order of two
    builders of different kinds does not matter.
  */
  lemma GatheredSwap(a: Modifier, b: Modifier, kind: Kind)
    requires a.kind != b.kind
    ensures Gathered([a, b], kind) == Gathered([b, a], kind)
  {
    assert [a, b][1..] == [b] && [b, a][1..] == [a] && [a][1..] == [] && [b][1..] == [];
  }

  const LinuxKernel := "https://git.kernel.org/pub/scm/linux/kernel/git/torvalds/linux.git/commit/?id=49decddd39e5f6132ccd7d9fdc3d7c470b0061bb"
  const Twitter := "https://www.cnet.com/news/twitter-engineers-replace-racially-loaded-tech-terms-like-master-slave/"
  const Google := "https://developers.google.com/style/inclusive-documentation"
  const GooglePronouns := "https://developers.google.com/style/pronouns#gender-neutral-pronouns"

  /** The ten phrases `forEnglish` adds, in order. */
  const EnglishPhrases: seq<Phrase> := [
    Phrase(["master"], ["primary", "leader", "main"], [LinuxKernel, Twitter]),
    Phrase(["slave"], ["secondary", "follower", "replica", "standby"], [LinuxKernel, Twitter]),
    Phrase(["whitelist"], ["allowlist", "passlist"], [LinuxKernel, Twitter]),
    Phrase(["blacklist"], ["denylist", "blocklist"], [LinuxKernel, Twitter]),
    Phrase(["grandfathered"], ["legacy status"], [Twitter]),
    Phrase(["guys"], ["people", "folks", "you all"], [Twitter]),
    Phrase(["he", "his", "him"], ["their", "them"], [GooglePronouns, Twitter]),
    Phrase(["man hours"], ["person hours", "engineer hours"], [Google, Twitter]),
    Phrase(["dummy"], ["placeholder", "sample"], [Google, Twitter]),
    Phrase(["sanity check"], ["quick check"], [Google, Twitter])
  ]

  /** `minimalSettings`: no phrases, no reference table, no formatting choice. */
  function MinimalSettings(): (s: Settings)
    ensures s.phrases == [] && s.references == map[] && s.withReferences == None
  {
    Settings([], map[], None)
  }

  /** A synonyms, an alternatives and a references builder, in this order, build their phrase. */
  lemma ThreeBuilders(syn: seq<string>, alt: seq<string>, refs: seq<string>)
    ensures var mods := [Synonyms(syn), Alternatives(alt), References(refs)];
      Gathered(mods, SynonymKind) == syn &&
      Gathered(mods, AlternativeKind) == alt &&
      Gathered(mods, ReferenceKind) == refs
  {
    ThreeBuildersKind(syn, alt, refs, SynonymKind);
    ThreeBuildersKind(syn, alt, refs, AlternativeKind);
    ThreeBuildersKind(syn, alt, refs, ReferenceKind);
  }

  lemma ThreeBuildersKind(syn: seq<string>, alt: seq<string>, refs: seq<string>, k: Kind)
    ensures Gathered([Synonyms(syn), Alternatives(alt), References(refs)], k) ==
      (if k == SynonymKind then syn else []) +
      (if k == AlternativeKind then alt else []) +
      (if k == ReferenceKind then refs else [])
  {
    var s, a, r := Synonyms(syn), Alternatives(alt), References(refs);
    assert [s, a, r] == [s] + ([a] + ([r] + []));
    GatheredCons(r, [], k);
    GatheredCons(a, [r], k);
    GatheredCons(s, [a, r], k);
  }

  /** One `add(phraseWith(synonyms(..), alternatives(..), references(..)))` call. */
  method AddBuilt(settings: Settings, syn: seq<string>, alt: seq<string>, refs: seq<string>) returns (r: Settings)
    ensures r == settings.(phrases := settings.phrases + [Phrase(syn, alt, refs)])
  {
    ThreeBuilders(syn, alt, refs);
    var p := PhraseWith([Synonyms(syn), Alternatives(alt), References(refs)]);
    r := settings.(phrases := settings.phrases + [p]);
  }

  /**
    `forEnglish`: appends the English phrases, one `add` at a time, after the
    phrases already present; nothing else in the settings changes.
  */
  method ForEnglish(settings: Settings) returns (r: Settings)
    ensures r.phrases == settings.phrases + EnglishPhrases
    ensures r.references == settings.references && r.withReferences == settings.withReferences
  {
    r := settings;
    r := AddBuilt(r, ["master"], ["primary", "leader", "main"], [LinuxKernel, Twitter]);
    r := AddBuilt(r, ["slave"], ["secondary", "follower", "replica", "standby"], [LinuxKernel, Twitter]);
    r := AddBuilt(r, ["whitelist"], ["allowlist", "passlist"], [LinuxKernel, Twitter]);
    r := AddBuilt(r, ["blacklist"], ["denylist", "blocklist"], [LinuxKernel, Twitter]);
    r := AddBuilt(r, ["grandfathered"], ["legacy status"], [Twitter]);
    r := AddBuilt(r, ["guys"], ["people", "folks", "you all"], [Twitter]);
    r := AddBuilt(r, ["he", "his", "him"], ["their", "them"], [GooglePronouns, Twitter]);
    r := AddBuilt(r, ["man hours"], ["person hours", "engineer hours"], [Google, Twitter]);
    r := AddBuilt(r, ["dummy"], ["placeholder", "sample"], [Google, Twitter]);
    r := AddBuilt(r, ["sanity check"], ["quick check"], [Google, Twitter]);
  }

  /** `DefaultSettings`: the English phrases on top of the minimal settings. */
  method DefaultSettings() returns (r: Settings)
    ensures r.phrases == EnglishPhrases
    ensures r.references == map[] && r.withReferences == None
  {
    r := MinimalSettings();
    r := ForEnglish(r);
  }

  /** Every default phrase has at least one synonym and at least one reference. */
  lemma EnglishPhrasesComplete()
    ensures |EnglishPhrases| == 10
    ensures forall i :: 0 <= i < |EnglishPhrases| ==>
      EnglishPhrases[i].synonyms != [] && EnglishPhrases[i].references != []
  {
  }
}
