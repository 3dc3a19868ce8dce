/**
  The linter of pkg/consider/linter.go: a walk over a file's syntax tree that
  runs the phrase match on every name-bearing position and reports what it
  finds, unless reporting is suppressed at that point.

  Every `Check…` method is proved against the walk of module Traversal: it
  leaves the suppression flag as it found it, and it appends to `reported`
  exactly the issues the specification yields for its node under the flag
  in force when it was called.
*/
module Consider {
  import opened Wrappers
  import opened Strings
  import Text
  import opened Config
  import opened Format
  import opened Ast
  import opened Traversal

  class Linter {
    const settings: Settings
    /** The message template, applied to the model `formatMessage` builds. */
    const format: FormatModel -> string
    var issuesSuppressed: bool
    /** Everything handed to the reporter so far, in order. */
    var reported: seq<Issue>

    /** `NewLinter`: nothing reported yet, suppression off. */
    constructor (settings: Settings, format: FormatModel -> string)
      ensures this.settings == settings && this.format == format
      ensures !issuesSuppressed && reported == []
    {
      this.settings := settings;
      this.format := format;
      issuesSuppressed := false;
      reported := [];
    }

    /** `CheckFile`: clears suppression, then walks the file. */
    method CheckFile(file: File, rawFile: Option<string>)
      modifies this
      ensures !issuesSuppressed
      ensures reported == old(reported) + Report(settings, format, FileC(file, rawFile))
    {
      ghost var before := reported;
      issuesSuppressed := false;
      ghost var a := if rawFile.None? then [] else [Candidate(BaseName(rawFile.value), FileName, file.package, false)];
      ghost var b := IdentC(Some(file.name), PackageName, false);
      ghost var c := CommentsC(file.comments, false);
      ghost var d := DeclsC(file.decls);
      CheckFilename(file, rawFile);
      CheckIdent(Some(file.name), PackageName);
      CheckCommentGroups(file.comments);
      CheckDecls(file.decls);
      Extend(settings, format, before, a, b);
      Extend(settings, format, before, a + b, c);
      Extend(settings, format, before, a + b + c, d);
    }

    /**
      `suppressIssues(on)`: sets the flag and hands back its previous value;
      the callers restore it by assigning that value back, as the returned
      closure does.
    */
    method SuppressIssues(on: bool) returns (previous: bool)
      modifies this
      ensures issuesSuppressed == on && previous == old(issuesSuppressed)
      ensures reported == old(reported)
    {
      previous := issuesSuppressed;
      issuesSuppressed := on;
    }

    /** `addIssue`: reports exactly once, unless reporting is suppressed. */
    method AddIssue(c: Context, pos: nat, synonym: string, phrase: Phrase)
      modifies this
      ensures issuesSuppressed == old(issuesSuppressed)
      ensures old(issuesSuppressed) ==> reported == old(reported)
      ensures !old(issuesSuppressed) ==>
        reported == old(reported) + [Issue(pos, Message(settings, format, c, synonym, phrase))]
    {
      if issuesSuppressed {
        return;
      }
      var message := FormatMessage(TypeString(c), synonym, phrase);
      reported := reported + [Issue(pos, message)];
    }

    /**
      `formatMessage`: resolves the phrase's references one by one and renders
      the model.
    */
    method FormatMessage(context: string, found: string, phrase: Phrase) returns (message: string)
      ensures message == format(FormatModel(context, found, phrase.alternatives, phrase.references,
                                            Resolved(settings.references, phrase.references),
                                            PrintReferences(settings.withReferences)))
    {
      var references: seq<string> := [];
      for i := 0 to |phrase.references|
        invariant references == Resolved(settings.references, phrase.references[..i])
      {
        assert phrase.references[..i + 1][..i] == phrase.references[..i];
        var short := phrase.references[i];
        var long := if short in settings.references then settings.references[short] else "";
        if |long| > 0 {
          references := references + [long];
        } else {
          references := references + [short];
        }
      }
      assert phrase.references[..|phrase.references|] == phrase.references;
      var model := FormatModel(context, found, phrase.alternatives, phrase.references,
                               references, PrintReferences(settings.withReferences));
      message := format(model);
    }

    /**
      `checkGeneric`: one issue for every synonym whose blank-framed form
      occurs in the normalised text, phrase by phrase, synonym by synonym,
      all at `pos`.
    */
    method CheckGeneric(s: string, c: Context, pos: nat)
      modifies this
      ensures issuesSuppressed == old(issuesSuppressed)
      ensures reported == old(reported) + (if old(issuesSuppressed) then [] else GenericIssues(settings, format, s, c, pos))
    {
      ghost var before := reported;
      ghost var sup := issuesSuppressed;
      var worded := Text.Wordify(s);
      var phrases := settings.phrases;
      for i := 0 to |phrases|
        invariant issuesSuppressed == sup
        invariant sup ==> reported == before
        invariant !sup ==> reported == before + IssuesFor(settings, format, c, pos, Hits(phrases[..i], worded))
      {
        var phrase := phrases[i];
        ghost var done := Hits(phrases[..i], worded);
        assert done + SynonymHits(phrase, phrase.synonyms[..0], worded) == done;
        for j := 0 to |phrase.synonyms|
          invariant issuesSuppressed == sup
          invariant sup ==> reported == before
          invariant !sup ==> reported == before + IssuesFor(settings, format, c, pos, done + SynonymHits(phrase, phrase.synonyms[..j], worded))
        {
          var synonym := phrase.synonyms[j];
          ghost var hits := done + SynonymHits(phrase, phrase.synonyms[..j], worded);
          SynonymHitsStep(phrase, phrase.synonyms, j, worded, done);
          if Contains(worded, " " + synonym + " ") {
            AddIssue(c, pos, synonym, phrase);
            assert done + SynonymHits(phrase, phrase.synonyms[..j + 1], worded) == hits + [(phrase, synonym)];
            IssuesForSnoc(settings, format, c, pos, before, hits, (phrase, synonym));
          } else {
            assert done + SynonymHits(phrase, phrase.synonyms[..j + 1], worded) == hits + [];
            assert hits + [] == hits;
          }
        }
        HitsStep(phrases, i, worded);
      }
      assert phrases[..|phrases|] == phrases;
      assert !sup ==> reported == before + IssuesFor(settings, format, c, pos, Hits(settings.phrases, worded));
    }

    method CheckIdents(idents: seq<Ident>, c: Context)
      modifies this
      ensures issuesSuppressed == old(issuesSuppressed)
      ensures reported == old(reported) + Report(settings, format, IdentsC(idents, c, old(issuesSuppressed)))
    {
      ghost var before := reported;
      ghost var sup := issuesSuppressed;
      for i := 0 to |idents|
        invariant issuesSuppressed == sup
        invariant reported == before + Report(settings, format, IdentsC(idents[..i], c, sup))
      {
        assert idents[..i + 1][..i] == idents[..i];
        CheckIdent(Some(idents[i]), c);
        Extend(settings, format, before, IdentsC(idents[..i], c, sup), IdentC(Some(idents[i]), c, sup));
      }
      assert idents[..|idents|] == idents;
    }

    /** `checkIdent`: a nil identifier is skipped. */
    method CheckIdent(ident: Option<Ident>, c: Context)
      modifies this
      ensures issuesSuppressed == old(issuesSuppressed)
      ensures reported == old(reported) + Report(settings, format, IdentC(ident, c, old(issuesSuppressed)))
    {
      if ident.None? {
        return;
      }
      ReportOne(settings, format, Candidate(ident.value.name, c, ident.value.pos, issuesSuppressed));
      CheckGeneric(ident.value.name, c, ident.value.pos);
    }

    /** `checkFilename`: the file's base name, at the `package` keyword; skipped for an unknown file. */
    method CheckFilename(file: File, rawFile: Option<string>)
      modifies this
      ensures issuesSuppressed == old(issuesSuppressed)
      ensures reported == old(reported) + Report(settings, format,
        if rawFile.None? then [] else [Candidate(BaseName(rawFile.value), FileName, file.package, old(issuesSuppressed))])
    {
      if rawFile.None? {
        return;
      }
      var filename := BaseName(rawFile.value);
      ReportOne(settings, format, Candidate(filename, FileName, file.package, issuesSuppressed));
      CheckGeneric(filename, FileName, file.package);
    }

    method CheckCommentGroups(groups: seq<CommentGroup>)
      modifies this
      ensures issuesSuppressed == old(issuesSuppressed)
      ensures reported == old(reported) + Report(settings, format, CommentsC(groups, old(issuesSuppressed)))
    {
      ghost var before := reported;
      ghost var sup := issuesSuppressed;
      for i := 0 to |groups|
        invariant issuesSuppressed == sup
        invariant reported == before + Report(settings, format, CommentsC(groups[..i], sup))
      {
        assert groups[..i + 1][..i] == groups[..i];
        CheckCommentGroup(groups[i]);
        Extend(settings, format, before, CommentsC(groups[..i], sup), [Candidate(groups[i].text, Comment, groups[i].pos, sup)]);
      }
      assert groups[..|groups|] == groups;
    }

    method CheckCommentGroup(group: CommentGroup)
      modifies this
      ensures issuesSuppressed == old(issuesSuppressed)
      ensures reported == old(reported) + Report(settings, format, [Candidate(group.text, Comment, group.pos, old(issuesSuppressed))])
    {
      ReportOne(settings, format, Candidate(group.text, Comment, group.pos, issuesSuppressed));
      CheckGeneric(group.text, Comment, group.pos);
    }

    method CheckDecls(decls: seq<Decl>)
      modifies this
      ensures issuesSuppressed == old(issuesSuppressed)
      ensures reported == old(reported) + Report(settings, format, DeclsC(decls))
    {
      ghost var before := reported;
      ghost var sup := issuesSuppressed;
      for i := 0 to |decls|
        invariant issuesSuppressed == sup
        invariant reported == before + Report(settings, format, DeclsC(decls[..i]))
      {
        assert decls[..i + 1][..i] == decls[..i];
        CheckDecl(decls[i]);
        Extend(settings, format, before, DeclsC(decls[..i]), DeclC(decls[i]));
      }
      assert decls[..|decls|] == decls;
    }

    /** `checkDecl`: switches suppression off for the declaration, then restores it. */
    method CheckDecl(decl: Decl)
      modifies this
      decreases decl, 2
      ensures issuesSuppressed == old(issuesSuppressed)
      ensures reported == old(reported) + Report(settings, format, DeclC(decl))
    {
      var previous := SuppressIssues(false);
      match decl {
        case GenDecl(_) => CheckGenDecl(decl);
        case FuncDecl(_, _, _, _) => CheckFuncDecl(decl);
        case BadDecl =>
      }
      issuesSuppressed := previous;
    }

    method CheckGenDecl(decl: Decl)
      requires decl.GenDecl?
      modifies this
      decreases decl, 1
      ensures issuesSuppressed == old(issuesSuppressed)
      ensures reported == old(reported) + Report(settings, format, SpecsC(decl.specs, old(issuesSuppressed)))
    {
      CheckSpecs(decl.specs);
    }

    method CheckSpecs(specs: seq<Spec>)
      modifies this
      ensures issuesSuppressed == old(issuesSuppressed)
      ensures reported == old(reported) + Report(settings, format, SpecsC(specs, old(issuesSuppressed)))
    {
      ghost var before := reported;
      ghost var sup := issuesSuppressed;
      for i := 0 to |specs|
        invariant issuesSuppressed == sup
        invariant reported == before + Report(settings, format, SpecsC(specs[..i], sup))
      {
        assert specs[..i + 1][..i] == specs[..i];
        CheckSpec(specs[i]);
        Extend(settings, format, before, SpecsC(specs[..i], sup), SpecC(specs[i], sup));
      }
      assert specs[..|specs|] == specs;
    }

    method CheckSpec(spec: Spec)
      modifies this
      decreases spec, 1
      ensures issuesSuppressed == old(issuesSuppressed)
      ensures reported == old(reported) + Report(settings, format, SpecC(spec, old(issuesSuppressed)))
    {
      match spec
      case ImportSpec(_) => CheckImportSpec(spec);
      case ValueSpec(_) => CheckValueSpec(spec);
      case TypeSpec(_, _) => CheckType(spec);
    }

    method CheckImportSpec(spec: Spec)
      requires spec.ImportSpec?
      modifies this
      decreases spec, 0
      ensures issuesSuppressed == old(issuesSuppressed)
      ensures reported == old(reported) + Report(settings, format, IdentC(spec.alias, PackageAlias, old(issuesSuppressed)))
    {
      CheckIdent(spec.alias, PackageAlias);
    }

    method CheckValueSpec(spec: Spec)
      requires spec.ValueSpec?
      modifies this
      decreases spec, 0
      ensures issuesSuppressed == old(issuesSuppressed)
      ensures reported == old(reported) + Report(settings, format, IdentsC(spec.names, ValueName, old(issuesSuppressed)))
    {
      CheckIdents(spec.names, ValueName);
    }

    /** `checkType`: the type's name, then the names declared inside the type. */
    method CheckType(spec: Spec)
      requires spec.TypeSpec?
      modifies this
      decreases spec, 0
      ensures issuesSuppressed == old(issuesSuppressed)
      ensures reported == old(reported) + Report(settings, format, SpecC(spec, old(issuesSuppressed)))
    {
      ghost var before := reported;
      ghost var sup := issuesSuppressed;
      CheckIdent(Some(spec.name), TypeName);
      CheckTypeExpr(spec.typ);
      Extend(settings, format, before, IdentC(Some(spec.name), TypeName, sup), TypeExprC(spec.typ, sup));
    }

    /** `checkTypeExpr`: struct members, signatures and interface methods; other types declare nothing. */
    method CheckTypeExpr(typeExpr: Expr)
      modifies this
      ensures issuesSuppressed == old(issuesSuppressed)
      ensures reported == old(reported) + Report(settings, format, TypeExprC(typeExpr, old(issuesSuppressed)))
    {
      match typeExpr
      case StructType(fields) => CheckFieldList(fields, MemberName);
      case FuncTypeExpr(signature) => CheckFuncType(signature);
      case InterfaceType(methods) => CheckFieldList(methods, MethodName);
      case _ =>
    }

    method CheckFuncType(funcType: FuncType)
      modifies this
      ensures issuesSuppressed == old(issuesSuppressed)
      ensures reported == old(reported) + Report(settings, format, FuncTypeC(funcType, old(issuesSuppressed)))
    {
      ghost var before := reported;
      ghost var sup := issuesSuppressed;
      CheckFieldList(funcType.params, ParameterName);
      CheckFieldList(funcType.results, ResultName);
      Extend(settings, format, before, FieldsC(funcType.params, ParameterName, sup), FieldsC(funcType.results, ResultName, sup));
    }

    method CheckFieldList(fields: seq<Field>, c: Context)
      modifies this
      ensures issuesSuppressed == old(issuesSuppressed)
      ensures reported == old(reported) + Report(settings, format, FieldsC(fields, c, old(issuesSuppressed)))
    {
      ghost var before := reported;
      ghost var sup := issuesSuppressed;
      for i := 0 to |fields|
        invariant issuesSuppressed == sup
        invariant reported == before + Report(settings, format, FieldsC(fields[..i], c, sup))
      {
        assert fields[..i + 1][..i] == fields[..i];
        CheckField(fields[i], c);
        Extend(settings, format, before, FieldsC(fields[..i], c, sup), FieldC(fields[i], c, sup));
      }
      assert fields[..|fields|] == fields;
    }

    method CheckField(field: Field, c: Context)
      modifies this
      ensures issuesSuppressed == old(issuesSuppressed)
      ensures reported == old(reported) + Report(settings, format, FieldC(field, c, old(issuesSuppressed)))
    {
      ghost var before := reported;
      ghost var sup := issuesSuppressed;
      CheckIdents(field.names, c);
      CheckTypeExpr(field.typ);
      Extend(settings, format, before, IdentsC(field.names, c, sup), TypeExprC(field.typ, sup));
    }

    /** `checkFuncDecl`: name, receiver, parameters and results, then the body. */
    method CheckFuncDecl(decl: Decl)
      requires decl.FuncDecl?
      modifies this
      decreases decl, 1
      ensures issuesSuppressed == old(issuesSuppressed)
      ensures reported == old(reported) + Report(settings, format, FuncDeclC(decl, old(issuesSuppressed)))
    {
      ghost var before := reported;
      ghost var sup := issuesSuppressed;
      ghost var a := IdentC(Some(decl.name), FunctionName, sup);
      ghost var b := FieldsC(decl.recv, FunctionReceiver, sup);
      ghost var c := FuncTypeC(decl.signature, sup);
      ghost var d := StmtsC(decl.body, sup);
      CheckIdent(Some(decl.name), FunctionName);
      CheckFieldList(decl.recv, FunctionReceiver);
      CheckFuncType(decl.signature);
      CheckStmts(decl.body);
      Extend(settings, format, before, a, b);
      Extend(settings, format, before, a + b, c);
      Extend(settings, format, before, a + b + c, d);
    }

    /** `checkStmts`, which is also `checkBlockStmt` on the block's statement list. */
    method CheckStmts(stmts: seq<Stmt>)
      modifies this
      ensures issuesSuppressed == old(issuesSuppressed)
      ensures reported == old(reported) + Report(settings, format, StmtsC(stmts, old(issuesSuppressed)))
    {
      ghost var before := reported;
      ghost var sup := issuesSuppressed;
      for i := 0 to |stmts|
        invariant issuesSuppressed == sup
        invariant reported == before + Report(settings, format, StmtsC(stmts[..i], sup))
      {
        assert stmts[..i + 1][..i] == stmts[..i];
        CheckStmt(stmts[i]);
        Extend(settings, format, before, StmtsC(stmts[..i], sup), StmtC(stmts[i], sup));
      }
      assert stmts[..|stmts|] == stmts;
    }

    /** `checkStmt` on a statement that may be absent. */
    method CheckOptStmt(stmt: Option<Stmt>)
      modifies this
      ensures issuesSuppressed == old(issuesSuppressed)
      ensures reported == old(reported) + Report(settings, format, OptStmtC(stmt, old(issuesSuppressed)))
    {
      if stmt.Some? {
        CheckStmt(stmt.value);
      }
    }

    method CheckStmt(stmt: Stmt)
      modifies this
      decreases stmt, 1
      ensures issuesSuppressed == old(issuesSuppressed)
      ensures reported == old(reported) + Report(settings, format, StmtC(stmt, old(issuesSuppressed)))
    {
      match stmt
      case DeclStmt(decl) => CheckDecl(decl);
      case LabeledStmt(_, _) => CheckLabelStmt(stmt);
      case ExprStmt(x) => CheckExpr(x);
      case AssignStmt(_, _, _) => CheckAssignStmt(stmt);
      case BlockStmt(stmts) => CheckStmts(stmts);
      case IfStmt(_, _, _) => CheckIfStmt(stmt);
      case CaseClause(_, _) => CheckCaseClause(stmt);
      case SwitchStmt(_, _, _) => CheckSwitchStmt(stmt);
      case TypeSwitchStmt(_, _, _) => CheckTypeSwitchStmt(stmt);
      case CommClause(_, _) => CheckCommClause(stmt);
      case SelectStmt(body) => CheckStmts(body);
      case ForStmt(_, _, _, _) => CheckForStmt(stmt);
      case RangeStmt(_, _, _, _, _) => CheckRangeStmt(stmt);
      case OtherStmt =>
    }

    method CheckLabelStmt(stmt: Stmt)
      requires stmt.LabeledStmt?
      modifies this
      decreases stmt, 0
      ensures issuesSuppressed == old(issuesSuppressed)
      ensures reported == old(reported) + Report(settings, format, StmtC(stmt, old(issuesSuppressed)))
    {
      ghost var before := reported;
      ghost var sup := issuesSuppressed;
      CheckIdent(Some(stmt.name), LabelName);
      CheckStmt(stmt.stmt);
      Extend(settings, format, before, IdentC(Some(stmt.name), LabelName, sup), StmtC(stmt.stmt, sup));
    }

    /**
      `checkAssignStmt`: the left-hand side with suppression on unless the
      token is `:=`, the right-hand side with suppression on; the flag is
      restored after each.
    */
    method CheckAssignStmt(stmt: Stmt)
      requires stmt.AssignStmt?
      modifies this
      decreases stmt, 0
      ensures issuesSuppressed == old(issuesSuppressed)
      ensures reported == old(reported) + Report(settings, format, StmtC(stmt, old(issuesSuppressed)))
    {
      ghost var before := reported;
      var previous := SuppressIssues(!stmt.define);
      CheckExprs(stmt.lhs);
      issuesSuppressed := previous;

      previous := SuppressIssues(true);
      CheckExprs(stmt.rhs);
      issuesSuppressed := previous;
      Extend(settings, format, before, ExprsC(stmt.lhs, !stmt.define), ExprsC(stmt.rhs, true));
    }

    method CheckExprs(exprs: seq<Expr>)
      modifies this
      ensures issuesSuppressed == old(issuesSuppressed)
      ensures reported == old(reported) + Report(settings, format, ExprsC(exprs, old(issuesSuppressed)))
    {
      ghost var before := reported;
      ghost var sup := issuesSuppressed;
      for i := 0 to |exprs|
        invariant issuesSuppressed == sup
        invariant reported == before + Report(settings, format, ExprsC(exprs[..i], sup))
      {
        assert exprs[..i + 1][..i] == exprs[..i];
        CheckExpr(exprs[i]);
        Extend(settings, format, before, ExprsC(exprs[..i], sup), ExprC(exprs[i], sup));
      }
      assert exprs[..|exprs|] == exprs;
    }

    /** `checkExpr` on an expression that may be absent. */
    method CheckOptExpr(expr: Option<Expr>)
      modifies this
      ensures issuesSuppressed == old(issuesSuppressed)
      ensures reported == old(reported) + Report(settings, format, OptExprC(expr, old(issuesSuppressed)))
    {
      if expr.Some? {
        CheckExpr(expr.value);
      }
    }

    /** `checkExpr`: identifiers and function literals; every other expression is skipped. */
    method CheckExpr(expr: Expr)
      modifies this
      decreases expr, 1
      ensures issuesSuppressed == old(issuesSuppressed)
      ensures reported == old(reported) + Report(settings, format, ExprC(expr, old(issuesSuppressed)))
    {
      match expr
      case IdentExpr(id) => CheckIdent(Some(id), Identifier);
      case FuncLit(_, _) => CheckFuncLit(expr);
      case _ =>
    }

    method CheckIfStmt(stmt: Stmt)
      requires stmt.IfStmt?
      modifies this
      decreases stmt, 0
      ensures issuesSuppressed == old(issuesSuppressed)
      ensures reported == old(reported) + Report(settings, format, StmtC(stmt, old(issuesSuppressed)))
    {
      ghost var before := reported;
      ghost var sup := issuesSuppressed;
      CheckOptStmt(stmt.init);
      CheckStmts(stmt.body);
      CheckOptStmt(stmt.els);
      Extend(settings, format, before, OptStmtC(stmt.init, sup), StmtsC(stmt.body, sup));
      Extend(settings, format, before, OptStmtC(stmt.init, sup) + StmtsC(stmt.body, sup), OptStmtC(stmt.els, sup));
    }

    method CheckCaseClause(stmt: Stmt)
      requires stmt.CaseClause?
      modifies this
      decreases stmt, 0
      ensures issuesSuppressed == old(issuesSuppressed)
      ensures reported == old(reported) + Report(settings, format, StmtC(stmt, old(issuesSuppressed)))
    {
      ghost var before := reported;
      ghost var sup := issuesSuppressed;
      CheckExprs(stmt.exprs);
      CheckStmts(stmt.body);
      Extend(settings, format, before, ExprsC(stmt.exprs, sup), StmtsC(stmt.body, sup));
    }

    method CheckSwitchStmt(stmt: Stmt)
      requires stmt.SwitchStmt?
      modifies this
      decreases stmt, 0
      ensures issuesSuppressed == old(issuesSuppressed)
      ensures reported == old(reported) + Report(settings, format, StmtC(stmt, old(issuesSuppressed)))
    {
      ghost var before := reported;
      ghost var sup := issuesSuppressed;
      CheckOptStmt(stmt.init);
      CheckOptExpr(stmt.tag);
      CheckStmts(stmt.body);
      Extend(settings, format, before, OptStmtC(stmt.init, sup), OptExprC(stmt.tag, sup));
      Extend(settings, format, before, OptStmtC(stmt.init, sup) + OptExprC(stmt.tag, sup), StmtsC(stmt.body, sup));
    }

    method CheckTypeSwitchStmt(stmt: Stmt)
      requires stmt.TypeSwitchStmt?
      modifies this
      decreases stmt, 0
      ensures issuesSuppressed == old(issuesSuppressed)
      ensures reported == old(reported) + Report(settings, format, StmtC(stmt, old(issuesSuppressed)))
    {
      ghost var before := reported;
      ghost var sup := issuesSuppressed;
      CheckOptStmt(stmt.init);
      CheckStmt(stmt.assign);
      CheckStmts(stmt.body);
      Extend(settings, format, before, OptStmtC(stmt.init, sup), StmtC(stmt.assign, sup));
      Extend(settings, format, before, OptStmtC(stmt.init, sup) + StmtC(stmt.assign, sup), StmtsC(stmt.body, sup));
    }

    method CheckCommClause(stmt: Stmt)
      requires stmt.CommClause?
      modifies this
      decreases stmt, 0
      ensures issuesSuppressed == old(issuesSuppressed)
      ensures reported == old(reported) + Report(settings, format, StmtC(stmt, old(issuesSuppressed)))
    {
      ghost var before := reported;
      ghost var sup := issuesSuppressed;
      CheckOptStmt(stmt.comm);
      CheckStmts(stmt.body);
      Extend(settings, format, before, OptStmtC(stmt.comm, sup), StmtsC(stmt.body, sup));
    }

    method CheckForStmt(stmt: Stmt)
      requires stmt.ForStmt?
      modifies this
      decreases stmt, 0
      ensures issuesSuppressed == old(issuesSuppressed)
      ensures reported == old(reported) + Report(settings, format, StmtC(stmt, old(issuesSuppressed)))
    {
      ghost var before := reported;
      ghost var sup := issuesSuppressed;
      ghost var a := OptStmtC(stmt.init, sup);
      ghost var b := OptExprC(stmt.cond, sup);
      ghost var c := OptStmtC(stmt.post, sup);
      ghost var d := StmtsC(stmt.body, sup);
      CheckOptStmt(stmt.init);
      CheckOptExpr(stmt.cond);
      CheckOptStmt(stmt.post);
      CheckStmts(stmt.body);
      Extend(settings, format, before, a, b);
      Extend(settings, format, before, a + b, c);
      Extend(settings, format, before, a + b + c, d);
    }

    /** `checkRangeStmt`: key, value and ranged expression under the current flag, whatever the token. */
    method CheckRangeStmt(stmt: Stmt)
      requires stmt.RangeStmt?
      modifies this
      decreases stmt, 0
      ensures issuesSuppressed == old(issuesSuppressed)
      ensures reported == old(reported) + Report(settings, format, StmtC(stmt, old(issuesSuppressed)))
    {
      ghost var before := reported;
      ghost var sup := issuesSuppressed;
      ghost var a := OptExprC(stmt.key, sup);
      ghost var b := OptExprC(stmt.value, sup);
      ghost var c := ExprC(stmt.x, sup);
      ghost var d := StmtsC(stmt.body, sup);
      CheckOptExpr(stmt.key);
      CheckOptExpr(stmt.value);
      CheckExpr(stmt.x);
      CheckStmts(stmt.body);
      Extend(settings, format, before, a, b);
      Extend(settings, format, before, a + b, c);
      Extend(settings, format, before, a + b + c, d);
    }

    /** `checkFuncLit`: a function literal re-opens reporting for its signature and body. */
    method CheckFuncLit(expr: Expr)
      requires expr.FuncLit?
      modifies this
      decreases expr, 0
      ensures issuesSuppressed == old(issuesSuppressed)
      ensures reported == old(reported) + Report(settings, format, ExprC(expr, old(issuesSuppressed)))
    {
      ghost var before := reported;
      var previous := SuppressIssues(false);
      CheckFuncType(expr.typ);
      CheckStmts(expr.body);
      issuesSuppressed := previous;
      Extend(settings, format, before, FuncTypeC(expr.typ, false), StmtsC(expr.body, false));
    }
  }

  /** One more synonym of the phrase at hand adds its hit, if any, at the end. */
  lemma SynonymHitsStep(p: Phrase, syns: seq<string>, j: nat, worded: string, done: seq<(Phrase, string)>)
    requires j < |syns|
    ensures done + SynonymHits(p, syns[..j + 1], worded)
      == done + SynonymHits(p, syns[..j], worded)
         + (if Contains(worded, " " + syns[j] + " ") then [(p, syns[j])] else [])
  {
    assert syns[..j + 1][..j] == syns[..j];
    var x := SynonymHits(p, syns[..j], worded);
    var y: seq<(Phrase, string)> := if Contains(worded, " " + syns[j] + " ") then [(p, syns[j])] else [];
    assert done + (x + y) == done + x + y;
  }

  /** Once all synonyms of phrase `i` are tried, the hits are those of the first `i + 1` phrases. */
  lemma HitsStep(phrases: seq<Phrase>, i: nat, worded: string)
    requires i < |phrases|
    ensures Hits(phrases[..i + 1], worded)
      == Hits(phrases[..i], worded) + SynonymHits(phrases[i], phrases[i].synonyms[..|phrases[i].synonyms|], worded)
  {
    assert phrases[..i + 1][..i] == phrases[..i];
    assert phrases[i].synonyms[..|phrases[i].synonyms|] == phrases[i].synonyms;
  }

  /** Appending a hit appends its issue. */
  lemma IssuesForSnoc(settings: Settings, format: FormatModel -> string, c: Context, pos: nat,
                      before: seq<Issue>, hits: seq<(Phrase, string)>, h: (Phrase, string))
    ensures before + IssuesFor(settings, format, c, pos, hits) + [Issue(pos, Message(settings, format, c, h.1, h.0))]
      == before + IssuesFor(settings, format, c, pos, hits + [h])
  {
    assert (hits + [h])[..|hits|] == hits;
    var issue := Issue(pos, Message(settings, format, c, h.1, h.0));
    assert before + IssuesFor(settings, format, c, pos, hits) + [issue] == before + (IssuesFor(settings, format, c, pos, hits) + [issue]);
  }

  /** Reporting two candidate lists one after the other reports their concatenation. */
  lemma Extend(settings: Settings, format: FormatModel -> string, before: seq<Issue>, a: seq<Candidate>, b: seq<Candidate>)
    ensures before + Report(settings, format, a) + Report(settings, format, b)
      == before + Report(settings, format, a + b)
  {
    ReportAppend(settings, format, a, b);
    assert before + Report(settings, format, a) + Report(settings, format, b)
      == before + (Report(settings, format, a) + Report(settings, format, b));
  }
}
