/** The slice of Go's declaration tree (package go/ast) that the generator
    inspects. Everything the generator never looks at is collapsed into an
    `Other…` constructor. */
module Ast {
  import opened Options

  /** The keyword of a general declaration (`token.IMPORT`, `token.CONST`,
      `token.TYPE`, `token.VAR`). */
  datatype Token = Import | Const | Type | Var

  /** A comment group: the raw text of each comment, in source order. */
  type CommentGroup = seq<string>

  /** One entry of a struct's field list. A field declared as `A, B int` has
      two names; an embedded field has none. */
  datatype Field = Field(names: seq<string>)

  /** The type expression of a type spec: a struct literal, or anything else
      (an interface, a named or primitive type, or an alias of one). */
  datatype Ty = Struct(fields: seq<Field>) | OtherTy

  /** A spec inside a general declaration: `Name Type` of a type declaration,
      or an import/value spec. */
  datatype Spec =
    | TypeSpec(name: string, doc: Option<CommentGroup>, ty: Ty)
    | OtherSpec

  /** A top-level declaration: a general declaration (possibly a parenthesised
      group `type ( … )`) or anything else, such as a function. */
  datatype Decl =
    | GenDecl(tok: Token, doc: Option<CommentGroup>, specs: seq<Spec>)
    | OtherDecl

  /** A parsed source file: its package clause and its declarations. */
  datatype File = File(pkgName: string, decls: seq<Decl>)
}
