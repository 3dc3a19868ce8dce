/**
  The part of Go's syntax tree (package go/ast) the linter walks. Positions
  are opaque numbers; a comment group carries the text `CommentGroup.Text()`
  would return. Nil lists and nil blocks are empty sequences, optional
  children are `Option`s, and node kinds the linter skips without looking
  inside collapse into `OtherExpr` and `OtherStmt`.
*/
module Ast {
  import opened Wrappers

  /** A name and where it starts. */
  datatype Ident = Ident(name: string, pos: nat)

  datatype CommentGroup = CommentGroup(text: string, pos: nat)

  /** One entry of a field list: the declared names (maybe none) and their type. */
  datatype Field = Field(names: seq<Ident>, typ: Expr)

  datatype FuncType = FuncType(params: seq<Field>, results: seq<Field>)

  datatype Expr =
    | IdentExpr(id: Ident)
    | FuncLit(typ: FuncType, body: seq<Stmt>)
    | StructType(fields: seq<Field>)
    | FuncTypeExpr(signature: FuncType)
    | InterfaceType(methods: seq<Field>)
      /** Literals, calls, selectors, operators, composite and other type expressions. */
    | OtherExpr

  datatype Spec =
    | ImportSpec(alias: Option<Ident>)
    | ValueSpec(names: seq<Ident>)
    | TypeSpec(name: Ident, typ: Expr)

  datatype Decl =
    | GenDecl(specs: seq<Spec>)
    | FuncDecl(recv: seq<Field>, name: Ident, signature: FuncType, body: seq<Stmt>)
    | BadDecl

  datatype Stmt =
    | DeclStmt(decl: Decl)
    | LabeledStmt(name: Ident, stmt: Stmt)
    | ExprStmt(x: Expr)
      /** `define` holds for the `:=` token. */
    | AssignStmt(lhs: seq<Expr>, define: bool, rhs: seq<Expr>)
    | BlockStmt(stmts: seq<Stmt>)
    | IfStmt(init: Option<Stmt>, body: seq<Stmt>, els: Option<Stmt>)
    | CaseClause(exprs: seq<Expr>, body: seq<Stmt>)
    | SwitchStmt(init: Option<Stmt>, tag: Option<Expr>, body: seq<Stmt>)
    | TypeSwitchStmt(init: Option<Stmt>, assign: Stmt, body: seq<Stmt>)
    | CommClause(comm: Option<Stmt>, body: seq<Stmt>)
    | SelectStmt(body: seq<Stmt>)
    | ForStmt(init: Option<Stmt>, cond: Option<Expr>, post: Option<Stmt>, body: seq<Stmt>)
    | RangeStmt(key: Option<Expr>, value: Option<Expr>, define: bool, x: Expr, body: seq<Stmt>)
      /** Send, increment, go, defer, return, branch and empty statements. */
    | OtherStmt

  /** A parsed source file: where `package` stands, the package name, all comments and the declarations. */
  datatype File = File(package: nat, name: Ident, comments: seq<CommentGroup>, decls: seq<Decl>)
}
