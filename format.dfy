/**
  The data a finding's message is rendered from (pkg/consider/formatter.go)
  and the reference resolution `formatMessage` performs before rendering.
  The template itself is a parameter of the linter.
*/
module Format {
  import opened Wrappers

  /**
    `formatModel`: where the phrase was found, the phrase, the proposed
    alternatives, the phrase's short references, their resolved forms, and
    whether the resolved forms are to be printed.
  */
  datatype FormatModel = FormatModel(
    context: string,
    found: string,
    alternatives: seq<string>,
    shortReferences: seq<string>,
    references: seq<string>,
    printReferences: bool)

  /**
    The long form of a short reference: the table's entry when it is
    non-empty, the short reference itself otherwise (a missing key reads as
    Go's empty string).
  */
  function Resolve(table: map<string, string>, short: string): string {
    var long := if short in table then table[short] else "";
    if |long| > 0 then long else short
  }

  /** The references, resolved one by one, in order. */
  function Resolved(table: map<string, string>, shorts: seq<string>): (longs: seq<string>)
    ensures |longs| == |shorts|
    ensures forall i :: 0 <= i < |shorts| ==>
      (longs[i] == shorts[i] || (shorts[i] in table && longs[i] == table[shorts[i]] != ""))
    ensures forall i :: 0 <= i < |shorts| && shorts[i] in table && table[shorts[i]] != "" ==>
      longs[i] == table[shorts[i]]
  {
    if shorts == [] then []
    else Resolved(table, shorts[..|shorts| - 1]) + [Resolve(table, shorts[|shorts| - 1])]
  }

  /** With no usable entry in the table, every reference stays in its short form. */
  lemma ResolvedWithoutEntries(table: map<string, string>, shorts: seq<string>)
    requires forall i :: 0 <= i < |shorts| ==> shorts[i] !in table || table[shorts[i]] == ""
    ensures Resolved(table, shorts) == shorts
  {
  }

  /** `PrintReferences` holds exactly when `WithReferences` is set and true. */
  function PrintReferences(withReferences: Option<bool>): (shown: bool)
    ensures shown <==> withReferences == Some(true)
  {
    withReferences != None && withReferences.value
  }
}
