/**
  What the walk of module Traversal promises: which positions can be
  suppressed, which contexts type expressions produce, the assignment rule,
  and which synonyms a checked text hits.
*/
module TraversalProperties {
  import opened Wrappers
  import opened Strings
  import opened Text
  import opened TextProperties
  import opened Config
  import opened Format
  import opened Ast
  import opened Traversal

  /** Every candidate carries the flag `sup`. */
  predicate AllFlagged(cs: seq<Candidate>, sup: bool) {
    forall k :: 0 <= k < |cs| ==> cs[k].suppressed == sup
  }

  /** Only identifier uses can be suppressed; every declared name is looked at. */
  predicate Open(cs: seq<Candidate>) {
    forall k :: 0 <= k < |cs| ==> cs[k].context != Identifier ==> !cs[k].suppressed
  }

  /** The contexts a type expression can produce: names declared inside the type. */
  predicate DeclaredInType(c: Context) {
    c == MemberName || c == MethodName || c == ParameterName || c == ResultName
  }

  predicate TypeShaped(cs: seq<Candidate>, sup: bool) {
    forall k :: 0 <= k < |cs| ==> cs[k].suppressed == sup && DeclaredInType(cs[k].context)
  }

  // ---------------------------------------------------------------------
  // Type expressions: declared names only, all under the flag in force

  lemma {:induction false} IdentsFlagged(ids: seq<Ident>, c: Context, sup: bool)
    ensures AllFlagged(IdentsC(ids, c, sup), sup)
    ensures forall k :: 0 <= k < |IdentsC(ids, c, sup)| ==> IdentsC(ids, c, sup)[k].context == c
  {
    if ids != [] {
      IdentsFlagged(ids[..|ids| - 1], c, sup);
    }
  }

  /**
    A type expression yields only struct members, interface methods,
    parameters and results: an identifier used as a type is not looked at.
  */
  lemma {:induction false} TypeExprShape(e: Expr, sup: bool)
    ensures TypeShaped(TypeExprC(e, sup), sup)
    decreases e
  {
    match e
    case StructType(fields) => FieldsShape(fields, MemberName, sup);
    case FuncTypeExpr(signature) => FuncTypeShape(signature, sup);
    case InterfaceType(methods) => FieldsShape(methods, MethodName, sup);
    case _ =>
  }

  lemma {:induction false} FuncTypeShape(t: FuncType, sup: bool)
    ensures TypeShaped(FuncTypeC(t, sup), sup)
    decreases t
  {
    FieldsShape(t.params, ParameterName, sup);
    FieldsShape(t.results, ResultName, sup);
  }

  lemma {:induction false} FieldsShape(fields: seq<Field>, c: Context, sup: bool)
    requires DeclaredInType(c)
    ensures TypeShaped(FieldsC(fields, c, sup), sup)
    decreases fields
  {
    if fields != [] {
      var f := fields[|fields| - 1];
      FieldsShape(fields[..|fields| - 1], c, sup);
      IdentsFlagged(f.names, c, sup);
      TypeExprShape(f.typ, sup);
    }
  }

  // ---------------------------------------------------------------------
  // Suppression only ever hides identifier uses

  lemma OpenAppend(a: seq<Candidate>, b: seq<Candidate>)
    requires Open(a) && Open(b)
    ensures Open(a + b)
  {
  }

  lemma OpenAppend3(a: seq<Candidate>, b: seq<Candidate>, c: seq<Candidate>)
    requires Open(a) && Open(b) && Open(c)
    ensures Open(a + b + c)
  {
    OpenAppend(a, b);
    OpenAppend(a + b, c);
  }

  lemma OpenAppend4(a: seq<Candidate>, b: seq<Candidate>, c: seq<Candidate>, d: seq<Candidate>)
    requires Open(a) && Open(b) && Open(c) && Open(d)
    ensures Open(a + b + c + d)
  {
    OpenAppend3(a, b, c);
    OpenAppend(a + b + c, d);
  }

  /** A declaration, wherever it occurs, reports every name it declares. */
  lemma {:induction false} DeclOpen(d: Decl)
    ensures Open(DeclC(d))
    decreases d, 1
  {
    match d
    case GenDecl(specs) => SpecsOpen(specs);
    case FuncDecl(_, _, _, _) => FuncDeclOpen(d);
    case BadDecl =>
  }

  lemma {:induction false} SpecsOpen(specs: seq<Spec>)
    ensures Open(SpecsC(specs, false))
    decreases specs
  {
    if specs != [] {
      SpecsOpen(specs[..|specs| - 1]);
      var s := specs[|specs| - 1];
      match s
      case ImportSpec(alias) =>
      case ValueSpec(names) => IdentsFlagged(names, ValueName, false);
      case TypeSpec(name, typ) => TypeExprShape(typ, false);
    }
  }

  lemma {:induction false} FuncDeclOpen(d: Decl)
    requires d.FuncDecl?
    ensures Open(FuncDeclC(d, false))
    decreases d, 0
  {
    FieldsFlagged(d.recv, FunctionReceiver, false);
    FuncTypeShape(d.signature, false);
    StmtsOpen(d.body);
    var a := IdentC(Some(d.name), FunctionName, false);
    var b := FieldsC(d.recv, FunctionReceiver, false);
    var c := FuncTypeC(d.signature, false);
    var e := StmtsC(d.body, false);
    OpenAppend(a, b);
    OpenAppend(a + b, c);
    OpenAppend(a + b + c, e);
  }

  lemma {:induction false} FieldsFlagged(fields: seq<Field>, c: Context, sup: bool)
    ensures AllFlagged(FieldsC(fields, c, sup), sup)
    decreases fields
  {
    if fields != [] {
      var f := fields[|fields| - 1];
      FieldsFlagged(fields[..|fields| - 1], c, sup);
      IdentsFlagged(f.names, c, sup);
      TypeExprShape(f.typ, sup);
    }
  }

  lemma {:induction false} StmtsOpen(stmts: seq<Stmt>)
    ensures Open(StmtsC(stmts, false))
    decreases stmts
  {
    if stmts != [] {
      StmtsOpen(stmts[..|stmts| - 1]);
      StmtOpen(stmts[|stmts| - 1]);
      OpenAppend(StmtsC(stmts[..|stmts| - 1], false), StmtC(stmts[|stmts| - 1], false));
    }
  }

  lemma {:induction false} OptStmtOpen(s: Option<Stmt>)
    ensures Open(OptStmtC(s, false))
    decreases s
  {
    if s.Some? {
      StmtOpen(s.value);
    }
  }

  /** Statements are walked with reporting on; only expressions can switch it off. */
  lemma {:induction false} StmtOpen(s: Stmt)
    ensures Open(StmtC(s, false))
    decreases s, 1
  {
    match s
    case DeclStmt(decl) => DeclOpen(decl);
    case LabeledStmt(name, stmt) =>
      StmtOpen(stmt);
      OpenAppend(IdentC(Some(name), LabelName, false), StmtC(stmt, false));
    case ExprStmt(x) => ExprOpen(x, false);
    case AssignStmt(lhs, define, rhs) =>
      ExprsOpen(lhs, !define);
      ExprsOpen(rhs, true);
      OpenAppend(ExprsC(lhs, !define), ExprsC(rhs, true));
    case BlockStmt(stmts) => StmtsOpen(stmts);
    case CaseClause(exprs, body) =>
      ExprsOpen(exprs, false);
      StmtsOpen(body);
      OpenAppend(ExprsC(exprs, false), StmtsC(body, false));
    case CommClause(comm, body) =>
      OptStmtOpen(comm);
      StmtsOpen(body);
      OpenAppend(OptStmtC(comm, false), StmtsC(body, false));
    case SelectStmt(body) => StmtsOpen(body);
    case OtherStmt =>
    case _ => BranchOpen(s);
  }

  /** The statements with three or four parts: `if`, the switches and the loops. */
  lemma {:induction false} BranchOpen(s: Stmt)
    requires s.IfStmt? || s.SwitchStmt? || s.TypeSwitchStmt? || s.ForStmt? || s.RangeStmt?
    ensures Open(StmtC(s, false))
    decreases s, 0
  {
    match s
    case IfStmt(init, body, els) =>
      OptStmtOpen(init);
      StmtsOpen(body);
      OptStmtOpen(els);
      OpenAppend3(OptStmtC(init, false), StmtsC(body, false), OptStmtC(els, false));
    case SwitchStmt(init, tag, body) =>
      OptStmtOpen(init);
      OptExprOpen(tag, false);
      StmtsOpen(body);
      OpenAppend3(OptStmtC(init, false), OptExprC(tag, false), StmtsC(body, false));
    case TypeSwitchStmt(init, assign, body) =>
      OptStmtOpen(init);
      StmtOpen(assign);
      StmtsOpen(body);
      OpenAppend3(OptStmtC(init, false), StmtC(assign, false), StmtsC(body, false));
    case ForStmt(init, cond, post, body) =>
      OptStmtOpen(init);
      OptExprOpen(cond, false);
      OptStmtOpen(post);
      StmtsOpen(body);
      OpenAppend4(OptStmtC(init, false), OptExprC(cond, false), OptStmtC(post, false), StmtsC(body, false));
    case RangeStmt(key, value, _, x, body) =>
      OptExprOpen(key, false);
      OptExprOpen(value, false);
      ExprOpen(x, false);
      StmtsOpen(body);
      OpenAppend4(OptExprC(key, false), OptExprC(value, false), ExprC(x, false), StmtsC(body, false));
  }

  /** Whatever the flag, an expression can only hide identifier uses: a function literal re-opens reporting. */
  lemma {:induction false} ExprOpen(e: Expr, sup: bool)
    ensures Open(ExprC(e, sup))
    decreases e
  {
    match e
    case IdentExpr(id) =>
    case FuncLit(typ, body) =>
      FuncTypeShape(typ, false);
      StmtsOpen(body);
    case _ =>
  }

  lemma {:induction false} OptExprOpen(e: Option<Expr>, sup: bool)
    ensures Open(OptExprC(e, sup))
    decreases e
  {
    if e.Some? {
      ExprOpen(e.value, sup);
    }
  }

  lemma {:induction false} ExprsOpen(exprs: seq<Expr>, sup: bool)
    ensures Open(ExprsC(exprs, sup))
    decreases exprs
  {
    if exprs != [] {
      ExprsOpen(exprs[..|exprs| - 1], sup);
      ExprOpen(exprs[|exprs| - 1], sup);
      OpenAppend(ExprsC(exprs[..|exprs| - 1], sup), ExprC(exprs[|exprs| - 1], sup));
    }
  }

  /**
    In a whole file, only identifier uses are ever suppressed: the file name,
    the package name, every comment and every declared name are looked at.
  */
  lemma FileOpen(f: File, rawFile: Option<string>)
    ensures Open(FileC(f, rawFile))
  {
    CommentsOpen(f.comments);
    DeclsOpen(f.decls);
    var a: seq<Candidate> := if rawFile.None? then [] else [Candidate(BaseName(rawFile.value), FileName, f.package, false)];
    var b := IdentC(Some(f.name), PackageName, false);
    OpenAppend(a, b);
    OpenAppend(a + b, CommentsC(f.comments, false));
    OpenAppend(a + b + CommentsC(f.comments, false), DeclsC(f.decls));
  }

  lemma {:induction false} CommentsOpen(groups: seq<CommentGroup>)
    ensures Open(CommentsC(groups, false))
  {
    if groups != [] {
      CommentsOpen(groups[..|groups| - 1]);
    }
  }

  lemma {:induction false} DeclsOpen(decls: seq<Decl>)
    ensures Open(DeclsC(decls))
  {
    if decls != [] {
      DeclsOpen(decls[..|decls| - 1]);
      DeclOpen(decls[|decls| - 1]);
    }
  }

  // ---------------------------------------------------------------------
  // The assignment rule

  /** Identifier uses without function literals all carry the flag in force. */
  lemma {:induction false} PlainExprsFlagged(exprs: seq<Expr>, sup: bool)
    requires forall k :: 0 <= k < |exprs| ==> !exprs[k].FuncLit?
    ensures AllFlagged(ExprsC(exprs, sup), sup)
  {
    if exprs != [] {
      PlainExprsFlagged(exprs[..|exprs| - 1], sup);
    }
  }

  /**
    An assignment without function literals reports its left-hand side only
    when it declares (`:=`), and never its right-hand side.
  */
  lemma AssignmentRule(settings: Settings, format: FormatModel -> string,
                       lhs: seq<Expr>, define: bool, rhs: seq<Expr>, sup: bool)
    requires forall k :: 0 <= k < |lhs| ==> !lhs[k].FuncLit?
    requires forall k :: 0 <= k < |rhs| ==> !rhs[k].FuncLit?
    ensures Report(settings, format, StmtC(AssignStmt(lhs, define, rhs), sup))
      == if define then Report(settings, format, ExprsC(lhs, false)) else []
  {
    PlainExprsFlagged(lhs, !define);
    PlainExprsFlagged(rhs, true);
    ReportAppend(settings, format, ExprsC(lhs, !define), ExprsC(rhs, true));
    SuppressedReportNothing(settings, format, ExprsC(rhs, true));
    if !define {
      SuppressedReportNothing(settings, format, ExprsC(lhs, true));
    }
  }

  /** A function literal on the right-hand side still reports its parameters and results. */
  lemma LiteralOnRightHandSide(settings: Settings, format: FormatModel -> string,
                               lhs: seq<Expr>, define: bool, typ: FuncType, body: seq<Stmt>, sup: bool)
    requires forall k :: 0 <= k < |lhs| ==> !lhs[k].FuncLit?
    ensures Report(settings, format, StmtC(AssignStmt(lhs, define, [FuncLit(typ, body)]), sup))
      == (if define then Report(settings, format, ExprsC(lhs, false)) else [])
         + Report(settings, format, FuncTypeC(typ, false) + StmtsC(body, false))
  {
    var lit := FuncLit(typ, body);
    var a, b := ExprsC(lhs, !define), ExprsC([lit], true);
    AssignC(lhs, define, [lit], sup);
    SingleLiteral(typ, body);
    PlainExprsFlagged(lhs, !define);
    ReportAfterFlagged(settings, format, a, b, !define);
  }

  lemma AssignC(lhs: seq<Expr>, define: bool, rhs: seq<Expr>, sup: bool)
    ensures StmtC(AssignStmt(lhs, define, rhs), sup) == ExprsC(lhs, !define) + ExprsC(rhs, true)
  {
  }

  /** A piece whose candidates all carry the flag `sup` reports nothing when it is set, everything otherwise. */
  lemma ReportAfterFlagged(settings: Settings, format: FormatModel -> string, a: seq<Candidate>, b: seq<Candidate>, sup: bool)
    requires AllFlagged(a, sup)
    ensures Report(settings, format, a + b) == (if sup then [] else Report(settings, format, a)) + Report(settings, format, b)
  {
    ReportAppend(settings, format, a, b);
    if sup {
      SuppressedReportNothing(settings, format, a);
      assert Report(settings, format, a) == [];
    }
  }

  lemma SingleLiteral(typ: FuncType, body: seq<Stmt>)
    ensures ExprsC([FuncLit(typ, body)], true) == FuncTypeC(typ, false) + StmtsC(body, false)
  {
    assert [FuncLit(typ, body)][..0] == [];
  }

  // ---------------------------------------------------------------------
  // Which synonyms a checked text hits

  lemma {:induction false} SynonymHitsIff(p: Phrase, syns: seq<string>, worded: string, h: (Phrase, string))
    ensures h in SynonymHits(p, syns, worded) <==> h.0 == p && h.1 in syns && Contains(worded, " " + h.1 + " ")
  {
    if syns != [] {
      var init := syns[..|syns| - 1];
      SynonymHitsIff(p, init, worded, h);
      assert syns == init + [syns[|syns| - 1]];
    }
  }

  /** A (phrase, synonym) pair is hit iff the synonym is the phrase's and its framed form occurs. */
  lemma {:induction false} HitsIff(phrases: seq<Phrase>, worded: string, h: (Phrase, string))
    ensures h in Hits(phrases, worded) <==> h.0 in phrases && h.1 in h.0.synonyms && Contains(worded, " " + h.1 + " ")
  {
    if phrases != [] {
      var init := phrases[..|phrases| - 1];
      var p := phrases[|phrases| - 1];
      HitsIff(init, worded, h);
      SynonymHitsIff(p, p.synonyms, worded, h);
      assert phrases == init + [p];
    }
  }

  /**
    For a one-word synonym, a text hits it iff the synonym is one of the
    text's lower-cased words: matching is by whole words.
  */
  lemma WordHit(phrases: seq<Phrase>, text: string, h: (Phrase, string))
    requires h.1 != [] && ' ' !in h.1
    ensures h in Hits(phrases, Wordified(text))
      <==> h.0 in phrases && h.1 in h.0.synonyms && h.1 in LowerAll(Words(text))
  {
    HitsIff(phrases, Wordified(text), h);
    WholeWordMatch(text, h.1);
  }

  /**
    For a synonym of several words, such as "man hours", a text hits it iff
    those words occur next to each other, in order, among the text's
    lower-cased words.
  */
  lemma PhraseHit(phrases: seq<Phrase>, text: string, h: (Phrase, string), ys: seq<string>)
    requires ys != [] && WellFormed(ys) && h.1 == Join(ys, " ")
    ensures h in Hits(phrases, Wordified(text))
      <==> h.0 in phrases && h.1 in h.0.synonyms && exists i :: RunAt(LowerAll(Words(text)), ys, i)
  {
    HitsIff(phrases, Wordified(text), h);
    PhraseMatch(text, ys);
  }

  /** A synonym holding an upper-case letter or a listed punctuation mark never hits. */
  lemma ForeignSynonymNeverHits(phrases: seq<Phrase>, text: string, h: (Phrase, string), i: nat)
    requires i < |h.1| && Foreign(h.1[i])
    ensures h !in Hits(phrases, Wordified(text))
  {
    HitsIff(phrases, Wordified(text), h);
    NeverMatchesRune(text, h.1, i);
  }

  /** The empty synonym never hits: the normalised text has no two blanks in a row. */
  lemma EmptySynonymNeverHits(phrases: seq<Phrase>, text: string, p: Phrase)
    ensures (p, "") !in Hits(phrases, Wordified(text))
  {
    HitsIff(phrases, Wordified(text), (p, ""));
    assert " " + "" + " " == "  ";
    EmptySynonymNeverMatches(text);
  }
}
