/**
  What the linter looks at, as a function of the syntax tree: every checked
  text with its context, its position and whether reporting is suppressed
  at that point, in the order pkg/consider/linter.go visits them, and the
  issues that list yields.
*/
module Traversal {
  import opened Wrappers
  import opened Strings
  import opened Text
  import opened Config
  import opened Format
  import opened Ast

  /** Where a checked text comes from. */
  datatype Context =
    | FileName | PackageName | Comment | PackageAlias | ValueName | TypeName | MemberName
    | ParameterName | ResultName | MethodName | FunctionName | FunctionReceiver | LabelName
    | Identifier

  /** The `typeString` the linter passes for a context. */
  function TypeString(c: Context): string {
    match c
    case FileName => "File name"
    case PackageName => "Package name"
    case Comment => "Comment"
    case PackageAlias => "Package alias"
    case ValueName => "Value name"
    case TypeName => "Type name"
    case MemberName => "Member name"
    case ParameterName => "Parameter name"
    case ResultName => "Result name"
    case MethodName => "Method name"
    case FunctionName => "Function name"
    case FunctionReceiver => "Function receiver"
    case LabelName => "Label"
    case Identifier => "Identifier"
  }

  /** A reported finding. */
  datatype Issue = Issue(pos: nat, message: string)

  /** One call of `checkGeneric`, with the suppression flag in force at that moment. */
  datatype Candidate = Candidate(text: string, context: Context, pos: nat, suppressed: bool)

  // ---------------------------------------------------------------------
  // Phrase matching (checkGeneric)

  /** The matching (phrase, synonym) pairs of one phrase, in synonym order. */
  function SynonymHits(p: Phrase, syns: seq<string>, worded: string): seq<(Phrase, string)> {
    if syns == [] then []
    else
      var s := syns[|syns| - 1];
      SynonymHits(p, syns[..|syns| - 1], worded) + (if Contains(worded, " " + s + " ") then [(p, s)] else [])
  }

  /** The matching (phrase, synonym) pairs, phrase by phrase. */
  function Hits(phrases: seq<Phrase>, worded: string): seq<(Phrase, string)> {
    if phrases == [] then []
    else
      var p := phrases[|phrases| - 1];
      Hits(phrases[..|phrases| - 1], worded) + SynonymHits(p, p.synonyms, worded)
  }

  /** The message `formatMessage` renders for a finding. */
  function Message(settings: Settings, format: FormatModel -> string, c: Context, synonym: string, p: Phrase): string {
    format(FormatModel(TypeString(c), synonym, p.alternatives, p.references,
                       Resolved(settings.references, p.references), PrintReferences(settings.withReferences)))
  }

  /** One issue per hit, all at the same position, in the order of the hits. */
  function IssuesFor(settings: Settings, format: FormatModel -> string, c: Context, pos: nat,
                     hits: seq<(Phrase, string)>): (issues: seq<Issue>)
    ensures |issues| == |hits|
  {
    if hits == [] then []
    else
      var h := hits[|hits| - 1];
      IssuesFor(settings, format, c, pos, hits[..|hits| - 1]) + [Issue(pos, Message(settings, format, c, h.1, h.0))]
  }

  /** The `i`-th issue is the `i`-th hit's message, at `pos`. */
  lemma {:induction false} IssuesForAt(settings: Settings, format: FormatModel -> string, c: Context, pos: nat,
                                       hits: seq<(Phrase, string)>)
    ensures forall i :: 0 <= i < |hits| ==>
      IssuesFor(settings, format, c, pos, hits)[i] == Issue(pos, Message(settings, format, c, hits[i].1, hits[i].0))
  {
    if hits != [] {
      IssuesForAt(settings, format, c, pos, hits[..|hits| - 1]);
    }
  }

  /** What `checkGeneric(text, context, pos)` reports when it is not suppressed. */
  function GenericIssues(settings: Settings, format: FormatModel -> string, text: string, c: Context, pos: nat): seq<Issue> {
    IssuesFor(settings, format, c, pos, Hits(settings.phrases, Wordified(text)))
  }

  /** The issues one candidate yields: nothing when it is suppressed. */
  function Matcher(settings: Settings, format: FormatModel -> string): Candidate -> seq<Issue> {
    (c: Candidate) => if c.suppressed then [] else GenericIssues(settings, format, c.text, c.context, c.pos)
  }

  /** The issues of a list of items, item by item. */
  function Collect<T>(issuesOf: T -> seq<Issue>, items: seq<T>): seq<Issue> {
    if items == [] then [] else issuesOf(items[0]) + Collect(issuesOf, items[1..])
  }

  /** The issues a list of candidates yields, in order. */
  function Report(settings: Settings, format: FormatModel -> string, cands: seq<Candidate>): seq<Issue> {
    Collect(Matcher(settings, format), cands)
  }

  // ---------------------------------------------------------------------
  // The walk

  /** `filepath.Split(path)`'s file part: what follows the last separator. */
  function BaseName(path: string): (name: string)
    ensures '/' !in name
    ensures HasSuffix(path, name)
    ensures |name| == |path| || path[|path| - |name| - 1] == '/'
  {
    if path == [] then []
    else if path[|path| - 1] == '/' then []
    else BaseName(path[..|path| - 1]) + [path[|path| - 1]]
  }

  function IdentC(id: Option<Ident>, c: Context, sup: bool): seq<Candidate> {
    if id.None? then [] else [Candidate(id.value.name, c, id.value.pos, sup)]
  }

  function IdentsC(ids: seq<Ident>, c: Context, sup: bool): seq<Candidate> {
    if ids == [] then []
    else IdentsC(ids[..|ids| - 1], c, sup) + IdentC(Some(ids[|ids| - 1]), c, sup)
  }

  function CommentsC(groups: seq<CommentGroup>, sup: bool): seq<Candidate> {
    if groups == [] then []
    else
      var g := groups[|groups| - 1];
      CommentsC(groups[..|groups| - 1], sup) + [Candidate(g.text, Comment, g.pos, sup)]
  }

  function SpecC(s: Spec, sup: bool): seq<Candidate> {
    match s
    case ImportSpec(alias) => IdentC(alias, PackageAlias, sup)
    case ValueSpec(names) => IdentsC(names, ValueName, sup)
    case TypeSpec(name, typ) => IdentC(Some(name), TypeName, sup) + TypeExprC(typ, sup)
  }

  function SpecsC(specs: seq<Spec>, sup: bool): seq<Candidate> {
    if specs == [] then []
    else SpecsC(specs[..|specs| - 1], sup) + SpecC(specs[|specs| - 1], sup)
  }

  /** Names declared inside a type: struct members, interface methods, signatures. */
  function TypeExprC(e: Expr, sup: bool): seq<Candidate> {
    match e
    case StructType(fields) => FieldsC(fields, MemberName, sup)
    case FuncTypeExpr(signature) => FuncTypeC(signature, sup)
    case InterfaceType(methods) => FieldsC(methods, MethodName, sup)
    case _ => []
  }

  function FuncTypeC(t: FuncType, sup: bool): seq<Candidate> {
    FieldsC(t.params, ParameterName, sup) + FieldsC(t.results, ResultName, sup)
  }

  function FieldsC(fields: seq<Field>, c: Context, sup: bool): seq<Candidate> {
    if fields == [] then []
    else FieldsC(fields[..|fields| - 1], c, sup) + FieldC(fields[|fields| - 1], c, sup)
  }

  function FieldC(f: Field, c: Context, sup: bool): seq<Candidate> {
    IdentsC(f.names, c, sup) + TypeExprC(f.typ, sup)
  }

  /** A declaration is walked with suppression off, whatever the flag was. */
  function DeclC(d: Decl): seq<Candidate>
    decreases d, 1
  {
    match d
    case GenDecl(specs) => SpecsC(specs, false)
    case FuncDecl(_, _, _, _) => FuncDeclC(d, false)
    case BadDecl => []
  }

  /** `checkFuncDecl`: name, receiver, parameters, results, then the body. */
  function FuncDeclC(d: Decl, sup: bool): seq<Candidate>
    requires d.FuncDecl?
    decreases d, 0
  {
    IdentC(Some(d.name), FunctionName, sup) + FieldsC(d.recv, FunctionReceiver, sup)
      + FuncTypeC(d.signature, sup) + StmtsC(d.body, sup)
  }

  function DeclsC(decls: seq<Decl>): seq<Candidate> {
    if decls == [] then []
    else DeclsC(decls[..|decls| - 1]) + DeclC(decls[|decls| - 1])
  }

  function StmtC(s: Stmt, sup: bool): seq<Candidate> {
    match s
    case DeclStmt(decl) => DeclC(decl)
    case LabeledStmt(name, stmt) => IdentC(Some(name), LabelName, sup) + StmtC(stmt, sup)
    case ExprStmt(x) => ExprC(x, sup)
      // the left-hand side is suppressed unless the token is `:=`; the right-hand side always is
    case AssignStmt(lhs, define, rhs) => ExprsC(lhs, !define) + ExprsC(rhs, true)
    case BlockStmt(stmts) => StmtsC(stmts, sup)
    case IfStmt(init, body, els) => OptStmtC(init, sup) + StmtsC(body, sup) + OptStmtC(els, sup)
    case CaseClause(exprs, body) => ExprsC(exprs, sup) + StmtsC(body, sup)
    case SwitchStmt(init, tag, body) => OptStmtC(init, sup) + OptExprC(tag, sup) + StmtsC(body, sup)
    case TypeSwitchStmt(init, assign, body) => OptStmtC(init, sup) + StmtC(assign, sup) + StmtsC(body, sup)
    case CommClause(comm, body) => OptStmtC(comm, sup) + StmtsC(body, sup)
    case SelectStmt(body) => StmtsC(body, sup)
    case ForStmt(init, cond, post, body) =>
      OptStmtC(init, sup) + OptExprC(cond, sup) + OptStmtC(post, sup) + StmtsC(body, sup)
    case RangeStmt(key, value, _, x, body) =>
      OptExprC(key, sup) + OptExprC(value, sup) + ExprC(x, sup) + StmtsC(body, sup)
    case OtherStmt => []
  }

  function OptStmtC(s: Option<Stmt>, sup: bool): seq<Candidate> {
    if s.None? then [] else StmtC(s.value, sup)
  }

  function StmtsC(stmts: seq<Stmt>, sup: bool): seq<Candidate> {
    if stmts == [] then []
    else StmtsC(stmts[..|stmts| - 1], sup) + StmtC(stmts[|stmts| - 1], sup)
  }

  /** Only identifiers and function literals are looked at; a literal re-opens reporting. */
  function ExprC(e: Expr, sup: bool): seq<Candidate> {
    match e
    case IdentExpr(id) => IdentC(Some(id), Identifier, sup)
    case FuncLit(typ, body) => FuncTypeC(typ, false) + StmtsC(body, false)
    case _ => []
  }

  function OptExprC(e: Option<Expr>, sup: bool): seq<Candidate> {
    if e.None? then [] else ExprC(e.value, sup)
  }

  function ExprsC(exprs: seq<Expr>, sup: bool): seq<Candidate> {
    if exprs == [] then []
    else ExprsC(exprs[..|exprs| - 1], sup) + ExprC(exprs[|exprs| - 1], sup)
  }

  /**
    `CheckFile`: the base file name (when the file is known), the package
    name, every comment group, then every declaration, all with suppression off.
  */
  function FileC(f: File, rawFile: Option<string>): seq<Candidate> {
    (if rawFile.None? then [] else [Candidate(BaseName(rawFile.value), FileName, f.package, false)])
      + IdentC(Some(f.name), PackageName, false) + CommentsC(f.comments, false) + DeclsC(f.decls)
  }

  // ---------------------------------------------------------------------
  // Facts about reporting

  lemma {:induction false} CollectAppend<T>(issuesOf: T -> seq<Issue>, a: seq<T>, b: seq<T>)
    ensures Collect(issuesOf, a + b) == Collect(issuesOf, a) + Collect(issuesOf, b)
  {
    if a == [] {
      assert a + b == b;
    } else {
      var x, t := a[0], a[1..];
      assert a == [x] + t;
      assert a + b == [x] + (t + b);
      CollectAppend(issuesOf, t, b);
      CollectCons(issuesOf, x, t + b);
      CollectCons(issuesOf, x, t);
      var h, ct, cb := issuesOf(x), Collect(issuesOf, t), Collect(issuesOf, b);
      assert h + (ct + cb) == (h + ct) + cb;
    }
  }

  lemma CollectCons<T>(issuesOf: T -> seq<Issue>, item: T, rest: seq<T>)
    ensures Collect(issuesOf, [item] + rest) == issuesOf(item) + Collect(issuesOf, rest)
  {
    assert ([item] + rest)[1..] == rest;
  }

  lemma CollectSnoc<T>(issuesOf: T -> seq<Issue>, items: seq<T>, item: T)
    ensures Collect(issuesOf, items + [item]) == Collect(issuesOf, items) + issuesOf(item)
  {
    CollectAppend(issuesOf, items, [item]);
    assert [item][1..] == [];
    assert Collect(issuesOf, [item]) == issuesOf(item) + Collect(issuesOf, []);
  }

  /** Walking two pieces of a tree one after the other reports their concatenation. */
  lemma ReportAppend(settings: Settings, format: FormatModel -> string, a: seq<Candidate>, b: seq<Candidate>)
    ensures Report(settings, format, a + b) == Report(settings, format, a) + Report(settings, format, b)
  {
    CollectAppend(Matcher(settings, format), a, b);
  }

  /** A single candidate yields the issues of its text, unless it is suppressed. */
  lemma ReportOne(settings: Settings, format: FormatModel -> string, cand: Candidate)
    ensures Report(settings, format, [cand])
      == if cand.suppressed then [] else GenericIssues(settings, format, cand.text, cand.context, cand.pos)
  {
    var m := Matcher(settings, format);
    assert [cand][1..] == [];
    assert Collect(m, [cand]) == m(cand) + Collect(m, []);
  }

  /** Candidates that are all suppressed yield no issue at all. */
  lemma {:induction false} SuppressedReportNothing(settings: Settings, format: FormatModel -> string,
                                                   cands: seq<Candidate>)
    requires forall i :: 0 <= i < |cands| ==> cands[i].suppressed
    ensures Report(settings, format, cands) == []
  {
    if cands != [] {
      SuppressedReportNothing(settings, format, cands[1..]);
      assert Matcher(settings, format)(cands[0]) == [];
    }
  }
}
