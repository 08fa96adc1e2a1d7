/** The abstract syntax produced by the front end: types, expressions,
    statements and declarations, the transient declarator tree, the
    diagnostics that the parser records, and the outcome of a parse step.
 */
module Syntax {

  /** `builtin_type`: the only type kind is `int`. A function type records
      its return type. */
  datatype BuiltinKind = Int
  datatype Type = Builtin(kind: BuiltinKind) | FunctionType(returnType: Type)

  const IntType: Type := Builtin(Int)

  datatype UnaryOp = Plus | Neg | BNot | LNot

  datatype BinaryOp =
    | Mul | Div | Rem
    | Add | Sub
    | Shl | Shr
    | Lt | Le | Gt | Ge
    | Eq | Ne
    | BAnd | BXor | BOr

  /** Operators whose operands are evaluated left to right (and, for `&&` and
      `||`, with the right operand possibly skipped). */
  datatype SequencedOp = LAnd | LOr | Comma

  /** Plain `=` is the only assignment operator of the grammar. */
  datatype AssignOp = AssignNone

  /** A variable declaration. `id` is the node's identity in the AST arena:
      two declarations of the same name are distinct nodes. */
  datatype VariableDecl = VariableDecl(id: nat, name: string, ty: Type)

  /** Expression nodes; every one carries its type. An identifier keeps only
      the (possibly missing) declaration it refers to, as the source's
      `identifier_expr` does. */
  datatype Expr =
    | IntegerConstant(ty: Type, value: nat)
    | Identifier(ty: Type, decl: Option<VariableDecl>)
    | Unary(ty: Type, uop: UnaryOp, child: Expr)
    | Binary(ty: Type, bop: BinaryOp, left: Expr, right: Expr)
    | SequencedBinary(ty: Type, sop: SequencedOp, left: Expr, right: Expr)
    | Conditional(ty: Type, condition: Expr, ifTrue: Expr, ifFalse: Expr)
    | Assignment(ty: Type, aop: AssignOp, left: Expr, right: Expr)

  datatype Option<T> = None | Some(value: T)

  datatype BuiltinKindStmt = Print | Assert

  datatype Stmt =
    | ExprStmt(expr: Expr)
    | BuiltinStmt(builtin: BuiltinKindStmt, expr: Expr)
    | DeclStmt(declarations: seq<VariableDecl>)
    | BlockStmt(statements: seq<Stmt>)

  /** A function definition: its name, its function type and its body block. */
  datatype FunctionDecl = FunctionDecl(name: string, ty: Type, body: seq<Stmt>)

  datatype TranslationUnit = TranslationUnit(declarations: seq<FunctionDecl>)

  /** The transient declarator tree: a name, or a `()` suffix around a
      declarator. Parentheses around a declarator leave no node. */
  datatype Declarator = NameDeclarator(name: string) | FunctionDeclarator(child: Declarator)

  /** What the diagnostic writer reports; only its kind and the name are kept. */
  datatype Diagnostic = UnknownIdentifier(name: string) | DuplicateLocal(name: string)

  /** The outcome of one parsing step at a position: a value with the
      position after it (whitespace skipped) and the parser state; a failure
      of the grammar to match; or one of the source's `CLAUF_TODO` aborts. */
  datatype Parsed<T, S> = Parsed(value: T, pos: nat, state: S) | Failed | Aborted(reason: string)

  /** Every expression node carries the builtin `int` type. */
  predicate AllInt(e: Expr) {
    e.ty == IntType &&
    match e
    case IntegerConstant(_, _) => true
    case Identifier(_, _) => true
    case Unary(_, _, c) => AllInt(c)
    case Binary(_, _, l, r) => AllInt(l) && AllInt(r)
    case SequencedBinary(_, _, l, r) => AllInt(l) && AllInt(r)
    case Conditional(_, c, t, f) => AllInt(c) && AllInt(t) && AllInt(f)
    case Assignment(_, _, l, r) => AllInt(l) && AllInt(r)
  }

  /** Every identifier in the expression refers to a declaration. */
  predicate Resolved(e: Expr) {
    match e
    case IntegerConstant(_, _) => true
    case Identifier(_, d) => d.Some?
    case Unary(_, _, c) => Resolved(c)
    case Binary(_, _, l, r) => Resolved(l) && Resolved(r)
    case SequencedBinary(_, _, l, r) => Resolved(l) && Resolved(r)
    case Conditional(_, c, t, f) => Resolved(c) && Resolved(t) && Resolved(f)
    case Assignment(_, _, l, r) => Resolved(l) && Resolved(r)
  }

  predicate StmtResolved(st: Stmt) {
    match st
    case ExprStmt(e) => Resolved(e)
    case BuiltinStmt(_, e) => Resolved(e)
    case DeclStmt(_) => true
    case BlockStmt(body) => forall k :: 0 <= k < |body| ==> StmtResolved(body[k])
  }

  predicate StmtAllInt(st: Stmt) {
    match st
    case ExprStmt(e) => AllInt(e)
    case BuiltinStmt(_, e) => AllInt(e)
    case DeclStmt(ds) => forall k :: 0 <= k < |ds| ==> ds[k].ty == IntType
    case BlockStmt(body) => forall k :: 0 <= k < |body| ==> StmtAllInt(body[k])
  }

  /** The identities of the declarations an expression refers to. */
  function ExprIds(e: Expr): set<nat> {
    match e
    case IntegerConstant(_, _) => {}
    case Identifier(_, d) => if d.Some? then {d.value.id} else {}
    case Unary(_, _, c) => ExprIds(c)
    case Binary(_, _, l, r) => ExprIds(l) + ExprIds(r)
    case SequencedBinary(_, _, l, r) => ExprIds(l) + ExprIds(r)
    case Conditional(_, c, t, f) => ExprIds(c) + ExprIds(t) + ExprIds(f)
    case Assignment(_, _, l, r) => ExprIds(l) + ExprIds(r)
  }

  /** The identities of the declarations a statement makes or refers to. */
  function StmtIds(st: Stmt): set<nat> {
    match st
    case ExprStmt(e) => ExprIds(e)
    case BuiltinStmt(_, e) => ExprIds(e)
    case DeclStmt(ds) => set k | 0 <= k < |ds| :: ds[k].id
    case BlockStmt(body) => set k, a | 0 <= k < |body| && a in StmtIds(body[k]) :: a
  }

  predicate ExprIdsIn(e: Expr, lo: nat, hi: nat) {
    forall a | a in ExprIds(e) :: lo <= a < hi
  }

  predicate StmtIdsIn(st: Stmt, lo: nat, hi: nat) {
    forall a | a in StmtIds(st) :: lo <= a < hi
  }

  predicate FunctionResolved(f: FunctionDecl) {
    forall k :: 0 <= k < |f.body| ==> StmtResolved(f.body[k])
  }
}
