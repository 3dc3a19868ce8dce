/**
  The linter's parameters: the phrases to look for (pkg/consider/settings.go)
  and how references are resolved and printed.
*/
module Config {
  import opened Wrappers

  /**
    A flagged expression: one or more synonyms with the same meaning, the
    proposed alternatives, and short references explaining the choice.
  */
  datatype Phrase = Phrase(synonyms: seq<string>, alternatives: seq<string>, references: seq<string>)

  /**
    All parameters of an analysis. `references` maps a short reference to its
    long form; `withReferences` is Go's optional `*bool`.
  */
  datatype Settings = Settings(
    phrases: seq<Phrase>,
    references: map<string, string>,
    withReferences: Option<bool>)
}
