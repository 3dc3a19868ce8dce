# goconsider, modelled in Dafny

goconsider is a linter for Go sources. It looks for phrases that are better
avoided, such as "whitelist" or "master". Each phrase has a set of synonyms,
the alternatives it suggests, and references that explain why.

The linter visits every name-bearing position of a file:
- the file name and the package name;
- comments;
- declared names: imports, values, types, members, parameters, results, receivers and functions;
- labels;
- identifiers used as expressions where the walk reaches them, as "Identifier": an expression statement, a switch tag or case list, a for condition, a range key, value or ranged expression, and the left-hand side of a `:=`.

Each text is normalised by `Wordify`:
- punctuation becomes blanks, and runs of blanks collapse to one;
- a new word starts at an upper-case letter after a non-upper-case rune, and at a lower-case letter after a digit or other non-letter;
- everything is lower-cased;
- the words are framed by single blanks.

A synonym is reported when its blank-framed form occurs in that normalised
text. Reporting is suppressed on the right-hand side of every assignment
and on the left-hand side of every assignment other than `:=` (`=`, `+=`,
`-=` and the other operator assignments). A function literal re-opens it.

The model covers these parts:
- **`Text`** — `Wordify` and its helpers, proved against a reference definition (`Wordified`). `TextProperties` holds what the normalisation guarantees. Its main result is that a blank-framed search for a synonym of one or more words matches exactly when those words occur next to each other, in order, among the words of the text.
- **`Config`, `Defaults`** — the settings and phrase values, the phrase builders, and the built-in English phrase table.
- **`Format`** — the model handed to the message template, with its reference resolution.
- **`Ast`, `Traversal`, `TraversalProperties`** — the syntax tree the walk needs. The walk itself is a pure function that lists every checked text with its context, position and suppression flag, and `Report` gives the issues that list yields. The properties cover suppression, assignments, function literals and hit matching.
- **`Consider`** — class `Linter` from pkg/consider/linter.go. It has the linter's mutable suppression flag and the list of reported issues. Every `Check…` method is proved to append exactly the issues `Traversal` specifies for its node. `CheckFile` first clears the flag; every other `Check…` method leaves it as it found it.
- **`Goconsider`** — the analyzer in goconsider.go: its fixed message wording and its per-file run.
- **`Cli`** — the command in cmd/goconsider/run.go:
  - argument parsing;
  - the vendor and `.go` filters;
  - the issue count and the sorted, de-duplicated reference list;
  - the error the command ends with.
- **`Strings`, `Wrappers`** — the parts of Go's `strings` package the code uses, and `Option`.

## Model

| member | source | states |
|---|---|---|
| Text.RuneCaseFrom | internal/text/wordify.go:66-77 | a rune is upper exactly when it is A–Z and lower exactly when it is a–z; everything else is neutral |
| Text.RemovePunctuation | internal/text/wordify.go:47-52 | the loop turns every punctuation rune into a blank and keeps all other runes; the result equals the reference `Depunctuated` |
| Text.MergeBlanks | internal/text/wordify.go:54-62 | repeating the replacement of double blanks until nothing changes reaches the collapsed form `Collapsed`, and the result has no two adjacent blanks |
| Text.CollapsedKeepsHead | internal/text/wordify.go:54-62 | merging blanks empties only the empty string and keeps the first rune |
| Text.CollapsedHasNoDoubleBlank | internal/text/wordify.go:54-62 | the collapsed form never contains two adjacent blanks |
| Text.ReplaceKeepsCollapsed | internal/text/wordify.go:56-60 | one replacement round does not change the collapsed form, which is the loop's invariant |
| Text.ReplaceFixpoint | internal/text/wordify.go:57-59 | a round that does not shorten the text changes nothing, and the text then has no double blank; this is the loop's exit condition |
| Text.ReplaceDoubleBlanks | internal/text/wordify.go:56-59 | one left-to-right pass of replacing "  " by " " never lengthens the text; `ReplaceKeepsCollapsed` and `ReplaceFixpoint` relate it to the collapsed form |
| Text.CollapsedOfNoDoubleBlank | internal/text/wordify.go:54-62 | a text without double blanks is its own collapsed form |
| Text.LastStart | internal/text/wordify.go:29-38 | the sub-word holding rune i starts at the last boundary at or before i, or at 0 when there is none |
| Text.LastStartIsLast | internal/text/wordify.go:29-38 | no boundary lies strictly after that start and at or before i |
| Text.LastStartOfPrefix | internal/text/wordify.go:29-38 | cutting a token short does not move the start of any earlier sub-word |
| Text.SingleRuneSubWords | internal/text/wordify.go:19-40 | a one-rune token is one sub-word |
| Text.SubWordsSnoc | internal/text/wordify.go:29-38 | adding a rune to a token either starts a new sub-word (at a boundary) or extends the last one; this is the rune loop's step |
| Text.SnocAtBoundary | internal/text/wordify.go:31-37 | a rune at a boundary closes the current part and starts a new sub-word holding only that rune |
| Text.SnocInside | internal/text/wordify.go:36-37 | a rune that is not at a boundary is appended to the last sub-word; earlier sub-words are unchanged |
| Text.AllSubWordsSnoc | internal/text/wordify.go:19-40 | the sub-words of the first k+1 tokens are those of the first k followed by those of token k; this is the token loop's step |
| Text.AppendSubWords | internal/text/wordify.go:20-39 | one pass of the rune loop and the final `addWord` append exactly the token's sub-words to `newwords`, in order |
| Text.RuneStep | internal/text/wordify.go:29-38 | each rune step keeps the loop invariant: `newwords` holds the finished sub-words of the prefix read so far, `currentPart` holds the open one, and `lastCase` is the class of the last rune |
| Text.RuneLoopDone | internal/text/wordify.go:39 | after the last rune, the final `addWord` leaves exactly the token's sub-words appended |
| Text.Wordify | internal/text/wordify.go:12-45 | the result equals `Wordified`: the sub-words of the cleaned tokens, lower-cased, joined by single blanks and framed by a blank on each side, or "" when there are none |
| TextProperties.LowerAll | internal/text/wordify.go:44 | each word is lower-cased in place and the count is kept |
| TextProperties.LowerRuneKeepsClass | internal/text/wordify.go:44 | lower-casing neither creates nor removes blanks or punctuation |
| TextProperties.SignificantRunes | internal/text/wordify.go:47-52 | the significant runes of a text contain no blank and no punctuation |
| TextProperties.WithoutToLower | internal/text/wordify.go:44 | deleting blanks commutes with lower-casing |
| TextProperties.InWithout | internal/text/wordify.go:47-62 | deleting blanks keeps every other rune |
| TextProperties.InConcat | internal/text/wordify.go:19-40 | a rune of any word is a rune of the concatenation |
| TextProperties.DepunctuatedCons | internal/text/wordify.go:47-52 | punctuation removal works rune by rune |
| TextProperties.WithoutDepunctuated | internal/text/wordify.go:47-52 | after removing punctuation, the runes other than blanks are exactly the significant runes, in order |
| TextProperties.WithoutCollapsed | internal/text/wordify.go:54-62 | merging blanks loses no rune other than blanks |
| TextProperties.ConcatSplit | internal/text/wordify.go:17 | the pieces of a split glue back to the text without its separators |
| TextProperties.SubWordsFacts | internal/text/wordify.go:19-40 | the sub-words of a token glue back to the token, and each one is non-empty with no inner boundary |
| TextProperties.LastPieceWhole | internal/text/wordify.go:29-38 | the last sub-word of a non-empty token is non-empty and has no inner boundary |
| TextProperties.AllSubWordsFacts | internal/text/wordify.go:19-40 | the sub-words of all tokens glue back to the tokens, and each one is non-empty with no inner boundary |
| TextProperties.WordsFacts | internal/text/wordify.go:12-45 | the words glue back to the significant runes; each word is non-empty, blank-free, punctuation-free and without an inner boundary |
| TextProperties.ToLowerJoin | internal/text/wordify.go:44 | lower-casing the joined words is joining the lower-cased words |
| TextProperties.LowerAllWellFormed | internal/text/wordify.go:44 | lower-casing keeps words non-empty and blank-free |
| TextProperties.ConcatLowerAll | internal/text/wordify.go:44 | lower-casing commutes with concatenation |
| TextProperties.WithoutJoin | internal/text/wordify.go:44 | deleting the blanks of blank-joined words gives their concatenation |
| TextProperties.RingCons | internal/text/wordify.go:44 | the framed form of a word list starts with a blank and the first word |
| TextProperties.RingNoDoubleBlank | internal/text/wordify.go:44 | framing well-formed words never produces a double blank |
| TextProperties.JoinLength | internal/text/wordify.go:44 | a join is at least as long as its first part |
| TextProperties.WordifiedIsRing | internal/text/wordify.go:41-44 | the result is "" when there are no words, and otherwise the lower-cased words in blank-framed form |
| TextProperties.WordifyKeepsRunes | internal/text/wordify.go:12-45 | no significant rune is lost or added: the result without blanks is the lower-cased input without blanks and punctuation |
| TextProperties.WordifyEmptyIff | internal/text/wordify.go:41-43 | the result is empty exactly when the input holds only blanks and punctuation |
| TextProperties.SignificantEmptyIff | internal/text/wordify.go:47-52 | a text has no significant rune exactly when it holds only blanks and punctuation |
| TextProperties.WordifyShape | internal/text/wordify.go:41-44 | a non-empty result has length at least 3, starts and ends with a single blank (the runes next to the frame are not blanks), and never has two adjacent blanks |
| TextProperties.WordifyRunes | internal/text/wordify.go:12-45 | the result holds no upper-case ASCII letter and no punctuation |
| TextProperties.WordifiedRune | internal/text/wordify.go:12-45 | any non-blank rune of the result is neither punctuation nor an upper-case letter |
| TextProperties.RingSplit | internal/text/wordify.go:44 | the framed form of one word is that word between blanks; for more words it continues with the framed rest |
| TextProperties.FramedAtStart | internal/text/wordify.go:44 | a framed run of blank-free words found at the start of a framed text opens with its first word, and the rest of the run is found at the start of what follows that word |
| TextProperties.FramedLater | internal/text/wordify.go:44 | a text opening with a blank, found after the start of a framed text, is found in what follows its first word |
| TextProperties.FramedFirst | internal/text/wordify.go:44 | putting the same first word in front of a text and of its prefix keeps it a prefix |
| TextProperties.RingPrefix | internal/text/wordify.go:44 | a framed run of words found at the start of the framed form is a prefix of its words |
| TextProperties.RingOccurrence | internal/text/wordify.go:44 | a framed run of words found anywhere in the framed form is a run of adjacent words of it |
| TextProperties.RingHasPrefix | internal/text/wordify.go:44 | a prefix of the words occurs framed at the start of the framed form |
| TextProperties.RingHasRun | internal/text/wordify.go:44 | every run of adjacent words occurs framed in the framed form |
| TextProperties.OccursAfter | internal/text/wordify.go:44 | an occurrence in what follows the first word is an occurrence in the whole framed text, shifted by that word and its blank |
| TextProperties.PhraseMatch | pkg/consider/linter.go:60-69 | searching the normalised text for a synonym of one or more words (such as "man hours"), framed by blanks, succeeds exactly when those words occur next to each other, in order, among the lower-cased words of the text |
| TextProperties.WholeWordMatch | pkg/consider/linter.go:60-69 | searching the normalised text for " x " (x non-empty, blank-free) succeeds exactly when x is one of the lower-cased words of the text; a synonym never matches part of a word |
| TextProperties.AbsentRuneNoMatch | pkg/consider/linter.go:64 | a pattern with a rune the text lacks never matches |
| TextProperties.DoubleBlankNoMatch | pkg/consider/linter.go:64 | a pattern with a double blank never matches a text without one |
| TextProperties.ForeignNoMatch | pkg/consider/linter.go:64 | a pattern with an upper-case letter or punctuation never matches a text without them |
| TextProperties.NeverMatchesRune | pkg/consider/linter.go:60-69 | a synonym with an upper-case ASCII letter or punctuation never matches any text |
| TextProperties.NeverMatchesDoubleBlank | pkg/consider/linter.go:60-69 | a synonym with two adjacent blanks never matches any text |
| TextProperties.EmptySynonymNeverMatches | pkg/consider/linter.go:60-69 | the empty synonym never matches, because its framed form is a double blank |
| TextProperties.DepunctuatedOfClean | internal/text/wordify.go:47-52 | punctuation removal leaves text without punctuation unchanged |
| TextProperties.LowerBoundary | internal/text/wordify.go:29-38 | lower-casing removes boundaries but never creates one |
| TextProperties.SubWordsOfWhole | internal/text/wordify.go:19-40 | a non-empty token without an inner boundary is one sub-word |
| TextProperties.AllSubWordsAppend | internal/text/wordify.go:19-40 | sub-word splitting works token by token |
| TextProperties.AllSubWordsOfWholeWords | internal/text/wordify.go:19-40 | tokens that are already whole words split into themselves |
| TextProperties.LowerAllTwice | internal/text/wordify.go:44 | lower-casing is idempotent |
| TextProperties.LowerWordsWhole | internal/text/wordify.go:44 | lower-casing keeps each word non-empty and without an inner boundary |
| TextProperties.WordsOfRing | internal/text/wordify.go:12-45 | splitting an already normalised framed text into sub-words gives back exactly its words |
| TextProperties.RingTokens | internal/text/wordify.go:17 | splitting the framed form at blanks gives the words between two empty pieces |
| TextProperties.WordifyIdempotent | internal/text/wordify.go:12-45 | normalising a normalised text changes nothing |
| Strings.ContainsIffOccurs | internal/text/wordify.go:44 | `Contains` holds exactly when the pattern occurs at some index |
| Strings.Split | internal/text/wordify.go:17 | splitting yields at least one piece |
| Strings.ReplaceAllRune | internal/text/wordify.go:47-52 | each rune equal to the needle is replaced, each other rune is kept, and the length is unchanged |
| Strings.ToLower | internal/text/wordify.go:44 | each rune is lower-cased in place and the length is unchanged |
| Strings.SplitJoinRoundTrip | internal/text/wordify.go:17 | splitting a join of separator-free parts at that separator gives the parts back |
| Strings.SplitOfSepFree | internal/text/wordify.go:17 | a text without the separator splits into itself |
| Strings.SplitAround | internal/text/wordify.go:17 | splitting at one separator splits both sides independently |
| Strings.ConcatAppend | internal/text/wordify.go:19-40 | concatenation distributes over list append |
| Strings.WithoutAppend | internal/text/wordify.go:54-62 | rune deletion distributes over append |
| Strings.WithoutAbsent | internal/text/wordify.go:54-62 | deleting an absent rune changes nothing |
| Defaults.Apply | settings.go:32-59 | a builder extends the one phrase field it names by its words and leaves the other fields unchanged |
| Defaults.PhraseWith | settings.go:53-59 | the built phrase's synonyms, alternatives and references are, each, the builders' words of that kind in builder order |
| Defaults.GatheredAppend | settings.go:53-59 | applying two builder lists one after the other gathers the words of both, in order |
| Defaults.GatheredCons | settings.go:53-59 | the first builder contributes its words, in front of those of the later builders |
| Defaults.GatheredSnoc | settings.go:55-57 | applying one more builder extends only the field of its kind, at the end |
| Defaults.GatheredSwap | settings.go:53-59 | builders of different kinds can be applied in either order |
| Defaults.MinimalSettings | settings.go:28-30 | the minimal settings have no phrases, no references and no formatting choice |
| Defaults.ThreeBuilders | settings.go:53-59 | the usual synonyms, alternatives and references builders fill the three fields exactly |
| Defaults.ThreeBuildersKind | settings.go:53-59 | with one builder of each kind, each field gets exactly that builder's words |
| Defaults.AddBuilt | settings.go:62-64 | one `add(phraseWith(...))` appends exactly the phrase with those synonyms, alternatives and references, and changes nothing else |
| Defaults.ForEnglish | settings.go:61-116 | the English phrase table is appended after the phrases already present, and nothing else changes |
| Defaults.DefaultSettings | settings.go:22-26 | the default settings are the minimal settings plus the English table |
| Defaults.EnglishPhrasesComplete | settings.go:66-114 | the English table has ten phrases, each with at least one synonym and at least one reference |
| Format.Resolved | pkg/consider/linter.go:363-372 | one reference per short reference, in order: its non-empty long form from the table, and otherwise the short form |
| Format.ResolvedWithoutEntries | pkg/consider/linter.go:363-372 | without usable table entries the references stay as written |
| Format.PrintReferences | pkg/consider/linter.go:362 | long references are shown exactly when the setting is present and true |
| Traversal.IssuesFor | pkg/consider/linter.go:60-69 | one issue per hit |
| Traversal.IssuesForAt | pkg/consider/linter.go:53-69 | the i-th issue is the i-th hit's formatted message at the checked position |
| Traversal.BaseName | pkg/consider/linter.go:84-90 | the file name part has no separator, ends the path, and is preceded in the path by a separator unless it is the whole path |
| Traversal.CollectAppend | pkg/consider/linter.go:71-75 | the issues of two lists of items are those of the first, then those of the second |
| Traversal.CollectSnoc | pkg/consider/linter.go:71-75 | adding an item adds its issues at the end |
| Traversal.ReportAppend | pkg/consider/linter.go:38-45 | checking two candidate lists in turn reports the issues of the first, then the second |
| Traversal.ReportOne | pkg/consider/linter.go:77-82 | one candidate yields nothing when suppressed and its generic issues otherwise |
| Traversal.SuppressedReportNothing | pkg/consider/linter.go:53-58 | candidates that are all suppressed report nothing |
| TraversalProperties.IdentsFlagged | pkg/consider/linter.go:71-75 | every identifier in a list is checked with the list's context and the flag in force |
| TraversalProperties.TypeExprShape | pkg/consider/linter.go:159-171 | a type expression only checks member, parameter, result and method names, under the flag in force |
| TraversalProperties.FuncTypeShape | pkg/consider/linter.go:173-176 | a function type only checks parameter and result names, under the flag in force |
| TraversalProperties.FieldsShape | pkg/consider/linter.go:178-190 | fields declared in a type only check names declared in types, under the flag in force |
| TraversalProperties.OpenAppend | pkg/consider/linter.go:47-51 | two lists without suppressed non-identifier candidates give one without |
| TraversalProperties.OpenAppend3 | pkg/consider/linter.go:302-323 | three pieces that suppress only identifiers, walked in turn, suppress only identifiers |
| TraversalProperties.OpenAppend4 | pkg/consider/linter.go:334-346 | the same holds for four pieces |
| TraversalProperties.DeclOpen | pkg/consider/linter.go:108-120 | in a declaration only plain identifiers can be suppressed; every declared name is checked |
| TraversalProperties.SpecsOpen | pkg/consider/linter.go:126-152 | import and value specs, walked unsuppressed, suppress only plain identifiers |
| TraversalProperties.FuncDeclOpen | pkg/consider/linter.go:192-197 | a function declaration walked unsuppressed suppresses only plain identifiers |
| TraversalProperties.FieldsFlagged | pkg/consider/linter.go:178-190 | field names are checked under the flag in force |
| TraversalProperties.StmtsOpen | pkg/consider/linter.go:206-210 | statements walked unsuppressed suppress only plain identifiers |
| TraversalProperties.OptStmtOpen | pkg/consider/linter.go:212-216 | an optional statement walked unsuppressed suppresses only plain identifiers |
| TraversalProperties.StmtOpen | pkg/consider/linter.go:212-346 | a statement walked unsuppressed suppresses only plain identifiers |
| TraversalProperties.BranchOpen | pkg/consider/linter.go:302-346 | an `if`, a switch, a type switch, a `for` or a `range` walked unsuppressed suppresses only plain identifiers |
| TraversalProperties.ExprOpen | pkg/consider/linter.go:277-300 | inside an expression only plain identifiers can be suppressed; a function literal's names are always checked |
| TraversalProperties.OptExprOpen | pkg/consider/linter.go:277-280 | an optional expression suppresses only plain identifiers |
| TraversalProperties.ExprsOpen | pkg/consider/linter.go:271-275 | an expression list suppresses only plain identifiers |
| TraversalProperties.FileOpen | pkg/consider/linter.go:38-45 | in a whole file, the file name, package name, comments and every declared name are always checked; only plain identifiers can be suppressed |
| TraversalProperties.CommentsOpen | pkg/consider/linter.go:92-100 | every comment group is checked |
| TraversalProperties.DeclsOpen | pkg/consider/linter.go:102-106 | declarations suppress only plain identifiers |
| TraversalProperties.PlainExprsFlagged | pkg/consider/linter.go:271-300 | without function literals, an expression list is checked only under the flag given |
| TraversalProperties.AssignmentRule | pkg/consider/linter.go:261-269 | without function literals an assignment reports its left-hand identifiers exactly when the token is `:=`, and never its right-hand side, whatever the surrounding flag |
| TraversalProperties.LiteralOnRightHandSide | pkg/consider/linter.go:261-269 | a function literal on the right-hand side is checked, parameters and body included, with suppression off |
| TraversalProperties.SingleLiteral | pkg/consider/linter.go:348-353 | a lone function literal on a suppressed right-hand side walks its type and body with reporting on |
| TraversalProperties.ReportAfterFlagged | pkg/consider/linter.go:47-58 | a piece walked all suppressed reports nothing; one walked unsuppressed reports its issues; whatever follows reports after it |
| TraversalProperties.SynonymHitsIff | pkg/consider/linter.go:63-67 | a pair is a hit of a phrase exactly when its synonym is among the phrase's synonyms and occurs blank-framed |
| TraversalProperties.HitsIff | pkg/consider/linter.go:60-69 | a pair is a hit exactly when its phrase is configured, its synonym belongs to the phrase, and it occurs blank-framed in the normalised text |
| TraversalProperties.WordHit | pkg/consider/linter.go:60-69 | a non-empty blank-free synonym hits exactly when it is one of the lower-cased words of the checked text |
| TraversalProperties.PhraseHit | pkg/consider/linter.go:60-69 | a synonym of several words hits exactly when its phrase is configured, the synonym belongs to it, and its words occur next to each other, in order, among the lower-cased words of the checked text |
| TraversalProperties.ForeignSynonymNeverHits | pkg/consider/linter.go:60-69 | a synonym with an upper-case letter or punctuation is never reported |
| TraversalProperties.EmptySynonymNeverHits | pkg/consider/linter.go:60-69 | the empty synonym is never reported |
| Consider.Linter.constructor | pkg/consider/linter.go:28-35 | a new linter has the given settings and formatter, nothing reported and suppression off |
| Consider.Linter.CheckFile | pkg/consider/linter.go:38-45 | suppression is cleared, and the issues appended are those of the file name, package name, comments and declarations, in that order |
| Consider.Linter.SuppressIssues | pkg/consider/linter.go:47-51 | the flag becomes `on`, the previous value is returned for the restore, and nothing is reported |
| Consider.Linter.AddIssue | pkg/consider/linter.go:53-58 | when suppressed nothing is reported; otherwise exactly one issue at the position with the formatted message |
| Consider.Linter.FormatMessage | pkg/consider/linter.go:355-374 | the formatter receives the context, the synonym, the alternatives, the short references, their resolved forms and whether long forms are shown |
| Consider.Linter.CheckGeneric | pkg/consider/linter.go:60-69 | appends one issue per (phrase, synonym) hit, phrase by phrase, synonym by synonym, all at the position; appends nothing when suppressed |
| Consider.Linter.CheckIdents | pkg/consider/linter.go:71-75 | appends the issues of each identifier, in order |
| Consider.Linter.CheckIdent | pkg/consider/linter.go:77-82 | a missing identifier appends nothing; otherwise it appends its name's issues at its position |
| Consider.Linter.CheckFilename | pkg/consider/linter.go:84-90 | an unknown file appends nothing; otherwise it appends the issues of the base name as "File name" at the package position |
| Consider.Linter.CheckCommentGroups | pkg/consider/linter.go:92-96 | appends the issues of each comment group, in order |
| Consider.Linter.CheckCommentGroup | pkg/consider/linter.go:98-100 | appends the issues of the group's text as "Comment" |
| Consider.Linter.CheckDecls | pkg/consider/linter.go:102-106 | appends the issues of each declaration in order, with suppression off inside, and restores the flag |
| Consider.Linter.CheckDecl | pkg/consider/linter.go:108-120 | a declaration is walked with suppression off whatever the flag was; bad declarations report nothing |
| Consider.Linter.CheckGenDecl | pkg/consider/linter.go:122-124 | appends the issues of the declaration's specs |
| Consider.Linter.CheckSpecs | pkg/consider/linter.go:126-130 | appends the issues of each spec, in order |
| Consider.Linter.CheckSpec | pkg/consider/linter.go:132-144 | dispatches to the import, value or type spec check |
| Consider.Linter.CheckImportSpec | pkg/consider/linter.go:146-148 | appends the issues of the import's alias as "Package alias" |
| Consider.Linter.CheckValueSpec | pkg/consider/linter.go:150-152 | appends the issues of each declared value name |
| Consider.Linter.CheckType | pkg/consider/linter.go:154-157 | appends the issues of the type name, then of its type expression |
| Consider.Linter.CheckTypeExpr | pkg/consider/linter.go:159-171 | struct fields are member names, interface methods are method names, function types check their fields; other expressions report nothing |
| Consider.Linter.CheckFuncType | pkg/consider/linter.go:173-176 | appends the issues of parameters, then results |
| Consider.Linter.CheckFieldList | pkg/consider/linter.go:178-185 | appends the issues of each field, in order |
| Consider.Linter.CheckField | pkg/consider/linter.go:187-190 | appends the issues of the field names in the given context, then of the field's type |
| Consider.Linter.CheckFuncDecl | pkg/consider/linter.go:192-197 | appends the issues of the function name, receiver, signature and body, in that order |
| Consider.Linter.CheckStmts | pkg/consider/linter.go:199-210 | appends the issues of each statement, in order |
| Consider.Linter.CheckOptStmt | pkg/consider/linter.go:212-216 | a missing statement appends nothing |
| Consider.Linter.CheckStmt | pkg/consider/linter.go:212-250 | dispatches on the statement kind; kinds without names report nothing |
| Consider.Linter.CheckLabelStmt | pkg/consider/linter.go:252-255 | appends the issues of the label, then of the labelled statement |
| Consider.Linter.CheckAssignStmt | pkg/consider/linter.go:261-269 | the left-hand side is checked suppressed unless the token is `:=`, the right-hand side always suppressed, and the flag is restored |
| Consider.Linter.CheckExprs | pkg/consider/linter.go:271-275 | appends the issues of each expression, in order |
| Consider.Linter.CheckOptExpr | pkg/consider/linter.go:277-280 | a missing expression appends nothing |
| Consider.Linter.CheckExpr | pkg/consider/linter.go:277-300 | identifiers are checked as "Identifier", function literals are walked, and every other expression reports nothing |
| Consider.Linter.CheckIfStmt | pkg/consider/linter.go:302-306 | appends the issues of init, body and else, in that order |
| Consider.Linter.CheckCaseClause | pkg/consider/linter.go:308-311 | appends the issues of the case expressions, then of the body |
| Consider.Linter.CheckSwitchStmt | pkg/consider/linter.go:313-317 | appends the issues of init, tag and body, in that order |
| Consider.Linter.CheckTypeSwitchStmt | pkg/consider/linter.go:319-323 | appends the issues of init, assignment and body, in that order |
| Consider.Linter.CheckCommClause | pkg/consider/linter.go:325-328 | appends the issues of the communication, then of the body |
| Consider.Linter.CheckForStmt | pkg/consider/linter.go:334-339 | appends the issues of init, condition, post statement and body, in that order |
| Consider.Linter.CheckRangeStmt | pkg/consider/linter.go:341-346 | appends the issues of key, value, ranged expression and body, in that order |
| Consider.Linter.CheckFuncLit | pkg/consider/linter.go:348-353 | the literal's type and body are checked with suppression off, and the flag is restored afterwards |
| Consider.SynonymHitsStep | pkg/consider/linter.go:62-68 | one more synonym adds its hit, if any, at the end; this is the inner loop's step |
| Consider.HitsStep | pkg/consider/linter.go:62-68 | one more phrase adds its synonyms' hits at the end; this is the outer loop's step |
| Consider.IssuesForSnoc | pkg/consider/linter.go:62-68 | one more hit adds its issue at the end |
| Consider.Extend | pkg/consider/linter.go:38-45 | reporting two candidate lists one after the other extends the reported issues by both, in order |
| Goconsider.Alternative | goconsider.go:46-51 | "something else" exactly when there are no alternatives; otherwise exactly "one of [", the alternatives joined by ", ", and "]": prefix, suffix and a length of their sum leave nothing else (`Strings.PrefixSuffixExact`) |
| Goconsider.AlternativeListsAll | goconsider.go:46-51 | every alternative is spelled out in the suggestion |
| Goconsider.JoinPosition | goconsider.go:50 | each part of a join occurs in it, at a computed position |
| Goconsider.JoinPositionNext | goconsider.go:50 | each part of a join starts right after the previous part and the separator, so the suggestion lists the alternatives in the order of the list |
| Goconsider.JoinHead | goconsider.go:50 | a join starts with its first part |
| Goconsider.ConsiderMessage | goconsider.go:42-44 | the message is the context, " contains '", the synonym and "', consider rephrasing to " followed by the suggestion, and nothing else |
| Goconsider.MessageWithoutAlternatives | goconsider.go:42-51 | without alternatives the message ends in "consider rephrasing to something else" |
| Goconsider.ConsiderFormat | goconsider.go:66-74 | the collector renders every finding with `considerMessage` from the context, the synonym and the phrase's alternatives; references are not shown |
| Goconsider.Run | goconsider.go:23-33 | the issues of a package are those of each file in order, each found by a fresh collector with suppression off, so nothing carries over between files |
| Goconsider.CollectPrefix | goconsider.go:23-33 | one more file adds its issues at the end |
| Cli.ErrorMessage | cmd/goconsider/run.go:99-109 | an unknown argument reads exactly "unknown argument '…'" and a missing parameter exactly "argument '…' is missing a parameter": prefix, suffix and a length of their sum leave nothing in between (`Strings.PrefixSuffixExact`) |
| Cli.ParseArguments | cmd/goconsider/run.go:111-137 | the loop with its moving index computes exactly the recursive reading `Parsed` |
| Cli.ErrorHasNoArguments | cmd/goconsider/run.go:111-137 | every parse error comes with the zero arguments |
| Cli.ParseAppend | cmd/goconsider/run.go:111-137 | parsing continues from where a successful prefix left off, and an unknown argument ends parsing whatever follows |
| Cli.OperandsInOrder | cmd/goconsider/run.go:116-119 | arguments not starting with "-" are appended as file names, in order |
| Cli.SettingsLastWins | cmd/goconsider/run.go:125-130 | a later `--settings FILE` replaces an earlier one |
| Cli.SettingsWithoutParameter | cmd/goconsider/run.go:125-129 | a trailing `--settings` is a missing-parameter error |
| Cli.UnknownOptionStops | cmd/goconsider/run.go:133-134 | an unrecognised option is an unknown-argument error, whatever follows |
| Cli.FlagsOnly | cmd/goconsider/run.go:121-132 | `-h`/`--help` sets only help and `--noReferences` sets only that flag |
| Cli.HasVendorPath | cmd/goconsider/run.go:196-199 | a path is excluded when it starts with "vendor/" or contains "/vendor/"; `HasVendorPathIff` shows this means a whole path component is `vendor` |
| Cli.HasVendorPathIff | cmd/goconsider/run.go:196-199 | a path is excluded exactly when some whole path component, followed by a separator, is `vendor` |
| Cli.VendorDirectoryFound | cmd/goconsider/run.go:196-199 | a path that `hasVendorPath` accepts has a `vendor` component followed by a separator |
| Cli.VendorDirectoryMatched | cmd/goconsider/run.go:196-199 | a path with a `vendor` component followed by a separator is accepted by `hasVendorPath` |
| Cli.IsAGoFile | cmd/goconsider/run.go:201-203 | an entry is a Go file when it is not a directory and its name ends in ".go" |
| Cli.Selected | cmd/goconsider/run.go:176-185 | the walk sends on a path exactly when it has no vendor component and its entry is a Go file; `SelectedIff` spells this out |
| Cli.SelectedIff | cmd/goconsider/run.go:196-203 | a path is linted exactly when no component is `vendor` and the entry is a non-directory whose name ends in ".go" |
| Cli.BelowIrreflexive | cmd/goconsider/run.go:225 | the sort order is irreflexive |
| Cli.BelowTransitive | cmd/goconsider/run.go:225 | the sort order is transitive |
| Cli.BelowTotal | cmd/goconsider/run.go:225 | any two distinct strings are ordered |
| Cli.BelowAsymmetric | cmd/goconsider/run.go:225 | the sort order is asymmetric |
| Cli.Insert | cmd/goconsider/run.go:225 | inserting a new string keeps the list strictly ascending and adds exactly that string |
| Cli.ConsAscending | cmd/goconsider/run.go:225 | a string below every element of an ascending list can go in front of it |
| Cli.BelowAll | cmd/goconsider/run.go:225 | a string below the head of an ascending list is below all its elements |
| Cli.HeadBelowInserted | cmd/goconsider/run.go:225 | the head stays below everything once a larger string is inserted into the rest |
| Cli.SortStrings | cmd/goconsider/run.go:221-225 | the result is strictly ascending and a permutation of the distinct input |
| Cli.AscendingUnique | cmd/goconsider/run.go:221-225 | two strictly ascending lists with the same elements are equal, so the printed list is determined whatever order the map gives |
| Cli.MinimumFirst | cmd/goconsider/run.go:225 | an ascending list starts with its least element |
| Cli.AllReferencesIff | cmd/goconsider/run.go:209-219 | a reference is collected exactly when some issue of some file carries it |
| Cli.IssueReferencesIff | cmd/goconsider/run.go:213-218 | a reference is collected from a file exactly when one of its issues carries it |
| Cli.LintAndReport | cmd/goconsider/run.go:205-232 | the count is the number of issues of all files; when references are wanted and there are any, "References:" is printed, then every collected reference exactly once, in ascending order; otherwise nothing is printed |
| Cli.AddReferences | cmd/goconsider/run.go:213-218 | the loops over one file's issues add exactly the references those issues carry to the set |
| Cli.SortedReferences | cmd/goconsider/run.go:221-225 | the set copied into a list and sorted is strictly ascending and holds exactly the set's references |
| Cli.Decimal | cmd/goconsider/run.go:30-32 | the count is written with decimal digits only, without a leading zero |
| Cli.DecimalRoundTrip | cmd/goconsider/run.go:30-32 | reading the written count back gives the count |
| Cli.ValueOfSnoc | cmd/goconsider/run.go:30-32 | appending a digit multiplies the value by ten and adds the digit |
| Cli.IssuesFoundMessage | cmd/goconsider/run.go:28-32 | the error reads exactly "<count> issues were found": the decimal count, the suffix, and a length of their sum |
| Cli.RunError | cmd/goconsider/run.go:34-63 | a definition, without a contract of its own, of the error `run` ends with: an argument error first; otherwise none when help is asked for, and the issue-count message when issues were found |
| Cli.RunSucceedsIff | cmd/goconsider/run.go:34-63 | the command succeeds exactly when the arguments parse and either help is asked for or no issue is found |

The specification functions the contracts are written in, such as
`Text.Wordified`, `Traversal.StmtC` and `Cli.Parsed`, have no row of their
own. Neither do these proof helpers, which unfold a definition or take one
step of another proof: `Strings.PrefixSuffixExact`, `Strings.SplitCons`,
`Strings.GluePieces`, `Strings.ToLowerAppend`, `Text.CollapsedCons`,
`Text.AllButLastSnoc`, `Text.SubWordsCut`, `TextProperties.SnocWhole`,
`TextProperties.RunOfOne`, `Traversal.CollectCons`,
`TraversalProperties.AssignC` and `Goconsider.JoinTail`.

## Left out

- Unicode: case classes and lower-casing cover ASCII letters only. The Go code uses `unicode.IsUpper`, `unicode.IsLower` and `strings.ToLower`, which also cover other scripts.
- Positions: `token.Pos` becomes a natural number carried by every node. The `go/parser` parsing, `token.FileSet` and the lookup of a position's file are not modelled. The file name a file set gives is a parameter (`Option<string>`).
- The message template (`text/template`, pkg/consider/formatter.go) is not part of this model. The linter receives it as a function on `FormatModel`. For the analyzer in goconsider.go that function is the fixed `considerMessage` (`Goconsider.ConsiderFormat`). The field layout follows pkg/consider/linter.go, which passes short and resolved references as two lists.
- The reporter callback of the linter is modelled as the list `reported`, which it appends to. The analyzer's `pass.Report` is the issue list that `Goconsider.Run` returns.
- Settings loading from YAML (pkg/settings) and the implicit `.goconsider.yaml` lookup are not part of this model. The same goes for `printUsage`, `parseFiles`, the version package and `main`.
- `Cli.RunError` abstracts those steps: it takes the issue count as an input and does not model settings-file or parse failures.
- Directory walking (`allGoFilesIn`, `filepath.Walk`) is left out. Only the filters it uses (`Cli.Selected`) are modelled.
- Cli.LintAndReport: takes each file's issues as input instead of running the linter. It returns the printed reference lines but not the printed issues. Go's map iteration order is replaced by a proof that the printed list does not depend on it (`Cli.AscendingUnique`).
- Path separators: `Traversal.BaseName` and `Cli.HasVendorPath` use '/', the value of Go's `filepath.Separator` on Unix. Paths with the Windows separator `\` are not modelled.
- Cli.SortStrings: orders strings rune by rune. That is the order `sort.Strings` uses on their UTF-8 bytes.
- Generic type parameters of Go 1.18 (the "Type parameter name" context) are not in the syntax tree: the linter in pkg/consider/linter.go does not visit them.
- A `nil` block or field list is modelled as an empty sequence. `checkBlockStmt` is therefore the same walk as `checkStmts` (`Consider.Linter.CheckStmts`).
- The analyzer's collector in goconsider.go (lines 119-370) walks exactly as the linter does in pkg/consider/linter.go (lines 102-353). It is modelled once, by `Consider.Linter`. `Goconsider.Run` uses that class with the analyzer's message wording.
- The analyzer's `checkFile` does not clear suppression as the linter's does. Every walk restores the flag, and each collector starts with it off, so the two agree. `Goconsider.Run` proves the resulting issue list.
- Text.AppendSubWords: the per-token body of the token loop is its own method, which takes and returns `newwords`. In the Go code, the `addWord` closure appends to `newwords` in place.
- Cli.AddReferences, Cli.SortedReferences: the inner loops of `lintAndReport` and its sorted reference list are separate methods. They take and return the set instead of updating the Go map in place.
- No lemma evaluates `Wordify` on a concrete input. The test cases of internal/text/wordify_test.go are covered only through the general properties.
- Traversal.IssuesFor: states only the number of issues in its own contract. The content of each issue is stated separately by `Traversal.IssuesForAt`.
- The test of goconsider_test.go names the file-name context "Filename", but the code passes "File name". The model follows the code.
- The same test expects 7 issues in testdata/issueInFunction.go, while that file marks 6. The model makes no claim about fixture counts.
