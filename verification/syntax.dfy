/** The part of the TypeScript compiler's syntax tree the comment walk looks at:
    a node's kind, its full start position in the file's text, and its children
    in the order the compiler visits them. */
module Syntax {

  /** Syntax kinds of the TypeScript compiler. The 33 kinds the declaration
      classifier names, the one further kind the range gathering names
      (`ParenthesizedExpression`), the source file, the `public` modifier
      keyword, and `OtherKind` for every remaining kind, distinguished by its code. */
  datatype SyntaxKind =
    | ArrowFunction
    | BindingElement
    | ClassDeclaration
    | ClassExpression
    | Constructor
    | EnumDeclaration
    | EnumMember
    | ExportSpecifier
    | FunctionDeclaration
    | FunctionExpression
    | GetAccessor
    | ImportClause
    | ImportEqualsDeclaration
    | ImportSpecifier
    | InterfaceDeclaration
    | JsxAttribute
    | MethodDeclaration
    | MethodSignature
    | ModuleDeclaration
    | NamespaceExportDeclaration
    | NamespaceImport
    | Parameter
    | PropertyAssignment
    | PropertyDeclaration
    | PropertySignature
    | SetAccessor
    | ShorthandPropertyAssignment
    | TypeAliasDeclaration
    | TypeParameter
    | VariableDeclaration
    | JSDocTypedefTag
    | JSDocCallbackTag
    | JSDocPropertyTag
    | ParenthesizedExpression
    | SourceFile
    | PublicKeyword
    | OtherKind(code: nat)

  /** A syntax tree node. `pos` is the node's full start (before its leading trivia),
      the offset at which the compiler's scanner is asked for comments. */
  datatype Node = Node(kind: SyntaxKind, pos: nat, children: seq<Node>)

  /** The 33 kinds that may own a documentation comment, listed as a set. */
  const DeclarationKinds: set<SyntaxKind> := {
    ArrowFunction, BindingElement, ClassDeclaration, ClassExpression, Constructor,
    EnumDeclaration, EnumMember, ExportSpecifier, FunctionDeclaration, FunctionExpression,
    GetAccessor, ImportClause, ImportEqualsDeclaration, ImportSpecifier, InterfaceDeclaration,
    JsxAttribute, MethodDeclaration, MethodSignature, ModuleDeclaration,
    NamespaceExportDeclaration, NamespaceImport, Parameter, PropertyAssignment,
    PropertyDeclaration, PropertySignature, SetAccessor, ShorthandPropertyAssignment,
    TypeAliasDeclaration, TypeParameter, VariableDeclaration,
    JSDocTypedefTag, JSDocCallbackTag, JSDocPropertyTag
  }

  /** The declaration classifier. Only nodes of these kinds are asked for comments,
      so that a comment is not found both for a declaration and for, say, its
      modifier keyword. */
  function IsDeclarationKind(kind: SyntaxKind): (r: bool)
    ensures kind == ParenthesizedExpression || kind.OtherKind? ==> !r
  {
    match kind
    case ArrowFunction | BindingElement | ClassDeclaration | ClassExpression | Constructor
      | EnumDeclaration | EnumMember | ExportSpecifier | FunctionDeclaration | FunctionExpression
      | GetAccessor | ImportClause | ImportEqualsDeclaration | ImportSpecifier | InterfaceDeclaration
      | JsxAttribute | MethodDeclaration | MethodSignature | ModuleDeclaration
      | NamespaceExportDeclaration | NamespaceImport | Parameter | PropertyAssignment
      | PropertyDeclaration | PropertySignature | SetAccessor | ShorthandPropertyAssignment
      | TypeAliasDeclaration | TypeParameter | VariableDeclaration
      | JSDocTypedefTag | JSDocCallbackTag | JSDocPropertyTag => true
    case _ => false
  }

  /** The classifier holds exactly for the 33 kinds of `DeclarationKinds` and
      for no other kind. */
  lemma ClassifierExactly(kind: SyntaxKind)
    ensures IsDeclarationKind(kind) <==> kind in DeclarationKinds
  {
  }
}
