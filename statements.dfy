/** Statements, function definitions, the translation unit and the entry
    point `compile`. */
module Statements {
  import opened Syntax
  import opened Lexical
  import opened Scope
  import opened Declarators
  import opened Expressions

  /** What every statement parsing step guarantees on success: it moved
      forward, it only extended the state, every node it built is typed
      `int`, while `errored` is unset every identifier refers to a
      declaration, and when the local table held only declarations allocated
      since `lo`, the table after it and everything the statement declared or
      referred to were allocated since `lo` too. */
  predicate StmtStep(s: seq<char>, i: nat, ctx: Ctx, r: Parsed<Stmt, Ctx>) {
    r.Parsed? ==>
      && i < r.pos <= |s|
      && Extends(ctx, r.state)
      && (Consistent(ctx) ==> Consistent(r.state))
      && StmtAllInt(r.value)
      && (!r.state.errored ==> StmtResolved(r.value))
      && (forall lo: nat | lo <= ctx.declCount :: LocalsFrom(ctx, lo) ==>
            LocalsFrom(r.state, lo) && StmtIdsIn(r.value, lo, r.state.declCount))
  }

  /** The local table and the statements `body` mention only declarations
      allocated since `lo`. */
  predicate BodyFrom(c: Ctx, body: seq<Stmt>, lo: nat) {
    LocalsFrom(c, lo) && forall k :: 0 <= k < |body| ==> StmtIdsIn(body[k], lo, c.declCount)
  }

  /** The same guarantees for a statement list that extends `acc`. */
  predicate StmtsStep(s: seq<char>, i: nat, ctx: Ctx, acc: seq<Stmt>, r: Parsed<seq<Stmt>, Ctx>) {
    r.Parsed? ==>
      && i < r.pos <= |s|
      && acc <= r.value
      && Extends(ctx, r.state)
      && (Consistent(ctx) ==> Consistent(r.state))
      && (forall k :: 0 <= k < |r.value| ==> StmtAllInt(r.value[k]))
      && (!r.state.errored ==> forall k :: 0 <= k < |r.value| ==> StmtResolved(r.value[k]))
      && (forall lo: nat | lo <= ctx.declCount :: BodyFrom(ctx, acc, lo) ==> BodyFrom(r.state, r.value, lo))
  }

  /** `stmt`: tried as a block, then a builtin statement, then a declaration
      statement, and otherwise as an expression statement. The keywords are
      matched as literals, as `dsl::symbol` does. */
  function ParseStmt(s: seq<char>, i: nat, ctx: Ctx): (r: Parsed<Stmt, Ctx>)
    requires i <= |s|
    ensures StmtStep(s, i, ctx, r)
    ensures r.Parsed? ==>
      if CharAt(s, i, '{') then r.value.BlockStmt?
      else if LitAt(s, i, KwPrint) then r.value.BuiltinStmt? && r.value.builtin == Print
      else if LitAt(s, i, KwAssert) then r.value.BuiltinStmt? && r.value.builtin == Assert
      else if LitAt(s, i, KwInt) then r.value.DeclStmt?
      else r.value.ExprStmt?
    decreases |s| - i, 2
  {
    if CharAt(s, i, '{') then
      match ParseBlock(s, i, ctx)
      case Parsed(body, p, c) => (BlockLocal(ctx, c, body); Parsed(BlockStmt(body), p, c))
      case Failed => Failed
      case Aborted(m) => Aborted(m)
    else if LitAt(s, i, KwPrint) then ParseBuiltin(s, i, ctx, Print)
    else if LitAt(s, i, KwAssert) then ParseBuiltin(s, i, ctx, Assert)
    else if LitAt(s, i, KwInt) then ParseDeclStmt(s, i, ctx)
    else ParseExprStmt(s, i, ctx)
  }

  /** `builtin_stmt`: the keyword, an expression, a semicolon. */
  function ParseBuiltin(s: seq<char>, i: nat, ctx: Ctx, kind: BuiltinKindStmt): (r: Parsed<Stmt, Ctx>)
    requires i <= |s| && LitAt(s, i, if kind == Print then KwPrint else KwAssert)
    ensures StmtStep(s, i, ctx, r)
    ensures r.Parsed? ==> r.value.BuiltinStmt? && r.value.builtin == kind
    ensures !r.Aborted?
  {
    var kw := if kind == Print then KwPrint else KwAssert;
    match Skip(s, i + |kw|)
    case Some(k) =>
      (match ParseExpr(s, k, ctx, Top)
       case Parsed(e, m, c) =>
         (match Semicolon(s, m)
          case Some(p) => (ExprLocal(ctx, c, e); Parsed(BuiltinStmt(kind, e), p, c))
          case None => Failed)
       case Failed => Failed
       case Aborted(msg) => Aborted(msg))
    case None => Failed
  }

  /** `expr_stmt`: an expression and a semicolon. */
  function ParseExprStmt(s: seq<char>, i: nat, ctx: Ctx): (r: Parsed<Stmt, Ctx>)
    requires i <= |s|
    ensures StmtStep(s, i, ctx, r)
    ensures r.Parsed? ==> r.value.ExprStmt?
    ensures !r.Aborted?
  {
    match ParseExpr(s, i, ctx, Top)
    case Parsed(e, m, c) =>
      (match Semicolon(s, m)
       case Some(p) => (ExprLocal(ctx, c, e); Parsed(ExprStmt(e), p, c))
       case None => Failed)
    case Failed => Failed
    case Aborted(msg) => Aborted(msg)
  }

  /** An expression that refers only to the local table mentions only
      declarations allocated since the table was last emptied. */
  lemma ExprLocal(ctx: Ctx, c: Ctx, e: Expr)
    requires c.locals == ctx.locals && c.declCount == ctx.declCount && LocalRefs(ctx, e)
    ensures forall lo: nat | lo <= ctx.declCount :: LocalsFrom(ctx, lo) ==>
              LocalsFrom(c, lo) && ExprIdsIn(e, lo, c.declCount)
  {
    forall lo: nat | lo <= ctx.declCount && LocalsFrom(ctx, lo)
      ensures ExprIdsIn(e, lo, c.declCount)
    {
      LocalIdsFrom(ctx, lo, ExprIds(e));
    }
  }

  /** `dsl::semicolon` at `m`, and the whitespace after it. */
  function Semicolon(s: seq<char>, m: nat): (r: Option<nat>)
    requires m <= |s|
    ensures r.Some? ==> m < r.value <= |s| && s[m] == ';'
  {
    if CharAt(s, m, ';') then Skip(s, m + 1) else None
  }

  /** `decl_stmt` over `declaration`: `int`, a declarator list and a
      semicolon. The declarators are resolved into fresh variables (or the
      parse stops on an unsupported shape), and then each variable is
      inserted into the local table, in order, duplicates being reported. */
  function ParseDeclStmt(s: seq<char>, i: nat, ctx: Ctx): (r: Parsed<Stmt, Ctx>)
    requires i <= |s| && LitAt(s, i, KwInt)
    ensures StmtStep(s, i, ctx, r)
    ensures r.Parsed? ==> r.value.DeclStmt?
    ensures !r.Failed? ==>
      var k := Skip(s, i + |KwInt|);
      k.Some? &&
      var l := ParseDeclaratorList(s, k.value);
      l.ListOk? &&
      var p := Semicolon(s, l.pos);
      p.Some? && r == DeclareDeclarators(ctx, l.ds, p.value)
  {
    match Skip(s, i + |KwInt|)
    case Some(k) =>
      (match ParseDeclaratorList(s, k)
       case ListOk(ds, m) =>
         (match Semicolon(s, m)
          case Some(p) => DeclareDeclarators(ctx, ds, p)
          case None => Failed)
       case ListFailed => Failed)
    case None => Failed
  }

  /** The value callbacks of `declaration` and `decl_stmt`: each declarator
      becomes a fresh variable, and each variable is inserted into the local
      table. */
  function DeclareDeclarators(ctx: Ctx, ds: seq<Declarator>, p: nat): (r: Parsed<Stmt, Ctx>)
    ensures r.Parsed? ==> r.pos == p && r.value.DeclStmt? && StmtAllInt(r.value)
    ensures var res := ResolveDeclarators(ctx.declCount, ds);
      && (res.Resolved? ==> r == Parsed(DeclStmt(res.decls), p, DeclareFreshState(ctx, res.decls)))
      && (res.Unsupported? ==> r == Aborted(res.reason))
    ensures r.Parsed? ==>
      && Extends(ctx, r.state)
      && (Consistent(ctx) ==> Consistent(r.state))
      && forall lo: nat | lo <= ctx.declCount :: LocalsFrom(ctx, lo) ==>
           LocalsFrom(r.state, lo) && StmtIdsIn(r.value, lo, r.state.declCount)
  {
    match ResolveDeclarators(ctx.declCount, ds)
    case Resolved(vs) =>
      (ResolveDeclaratorsNames(ctx.declCount, ds);
       DeclareFresh(ctx, vs);
       Parsed(DeclStmt(vs), p, DeclareFreshState(ctx, vs)))
    case Unsupported(reason) => Aborted(reason)
  }

  /** What a declaration statement does: it stops exactly when a declarator
      is not a name; otherwise it declares one fresh `int` variable per
      declarator, in order, binds their names, and reports exactly the
      duplicates, setting `errored` exactly when there is one. */
  lemma DeclareDeclaratorsEffect(ctx: Ctx, ds: seq<Declarator>, p: nat)
    ensures DeclareDeclarators(ctx, ds, p).Aborted? <==> exists k :: 0 <= k < |ds| && !ds[k].NameDeclarator?
    ensures var r := DeclareDeclarators(ctx, ds, p);
      r.Parsed? ==>
      var vs := r.value.declarations;
      && |vs| == |ds|
      && (forall k :: 0 <= k < |ds| ==> vs[k] == VariableDecl(ctx.declCount + k, ds[k].name, IntType))
      && r.state.declCount == ctx.declCount + |vs|
      && r.state.locals.Keys == ctx.locals.Keys + DeclaredNames(vs)
      && (r.state.errored <==> ctx.errored || exists k :: 0 <= k < |vs| && IsDuplicateAt(ctx.locals.Keys, vs, k))
      && r.state.diagnostics == ctx.diagnostics + DuplicateReports(ctx.locals.Keys, vs)
  {
    ResolveDeclaratorsNames(ctx.declCount, ds);
    var res := ResolveDeclarators(ctx.declCount, ds);
    if res.Resolved? {
      var vs := res.decls;
      var c := ctx.(declCount := ctx.declCount + |vs|);
      DeclareAllKeys(c, vs);
      DeclareAllErrored(c, vs);
      DeclareAllReports(c, vs);
    }
  }

  /** A statement starting with `int` is read as a declaration statement:
      neither builtin keyword starts with `i`. */
  lemma IntStmtIsDecl(s: seq<char>, i: nat, ctx: Ctx)
    requires i <= |s| && LitAt(s, i, KwInt)
    ensures ParseStmt(s, i, ctx) == ParseDeclStmt(s, i, ctx)
  {
    assert s[i] == s[i..i + 3][0] == 'i';
    assert !LitAt(s, i, KwPrint) by { assert i + |KwPrint| <= |s| ==> s[i..i + |KwPrint|][0] == s[i]; }
    assert !LitAt(s, i, KwAssert) by { assert i + |KwAssert| <= |s| ==> s[i..i + |KwAssert|][0] == s[i]; }
  }

  /** A declaration statement read by `stmt` sets `errored` exactly when the
      state was already errored or one of its variables is already bound
      (or repeats an earlier one of the same statement); it reports exactly
      those duplicates and binds every declared name. */
  lemma DeclStmtEffect(s: seq<char>, i: nat, ctx: Ctx)
    requires i <= |s| && LitAt(s, i, KwInt)
    ensures var r := ParseStmt(s, i, ctx);
      r.Parsed? ==>
      && r.value.DeclStmt?
      && var vs := r.value.declarations;
      && (r.state.errored <==> ctx.errored || exists k :: 0 <= k < |vs| && IsDuplicateAt(ctx.locals.Keys, vs, k))
      && r.state.diagnostics == ctx.diagnostics + DuplicateReports(ctx.locals.Keys, vs)
      && r.state.locals.Keys == ctx.locals.Keys + DeclaredNames(vs)
  {
    IntStmtIsDecl(s, i, ctx);
    var r := ParseDeclStmt(s, i, ctx);
    if r.Parsed? {
      var k := Skip(s, i + |KwInt|).value;
      var l := ParseDeclaratorList(s, k);
      DeclareDeclaratorsEffect(ctx, l.ds, Semicolon(s, l.pos).value);
    }
  }

  /** The state after a declaration statement of the fresh variables `vs`:
      they are allocated, then inserted. */
  function DeclareFreshState(ctx: Ctx, vs: seq<VariableDecl>): Ctx {
    DeclareAll(ctx.(declCount := ctx.declCount + |vs|), vs)
  }

  /** Declaring fresh variables keeps the local table, and the statement,
      within what was allocated since the table was last emptied. */
  lemma DeclareFresh(ctx: Ctx, vs: seq<VariableDecl>)
    requires forall k :: 0 <= k < |vs| ==> vs[k].id == ctx.declCount + k
    ensures var r := DeclareFreshState(ctx, vs);
      && Extends(ctx, r) && r.declCount == ctx.declCount + |vs|
      && (Consistent(ctx) ==> Consistent(r))
      && forall lo: nat | lo <= ctx.declCount :: LocalsFrom(ctx, lo) ==>
           LocalsFrom(r, lo) && StmtIdsIn(DeclStmt(vs), lo, r.declCount)
  {
    var r := DeclareFreshState(ctx, vs);
    forall lo: nat | lo <= ctx.declCount && LocalsFrom(ctx, lo)
      ensures LocalsFrom(r, lo)
    {
      forall n | n in r.locals ensures lo <= r.locals[n].id < r.declCount {
        if r.locals[n] in vs {
          var k :| 0 <= k < |vs| && vs[k] == r.locals[n];
        }
      }
    }
  }

  /** A block built from statements that mention only declarations
      allocated since `lo` mentions only those too. */
  lemma BlockLocal(ctx: Ctx, c: Ctx, body: seq<Stmt>)
    requires forall lo: nat | lo <= ctx.declCount :: BodyFrom(ctx, [], lo) ==> BodyFrom(c, body, lo)
    ensures forall lo: nat | lo <= ctx.declCount :: LocalsFrom(ctx, lo) ==>
              LocalsFrom(c, lo) && StmtIdsIn(BlockStmt(body), lo, c.declCount)
  {
    forall lo: nat | lo <= ctx.declCount && LocalsFrom(ctx, lo)
      ensures LocalsFrom(c, lo) && StmtIdsIn(BlockStmt(body), lo, c.declCount)
    {
      assert BodyFrom(ctx, [], lo);
      forall a | a in StmtIds(BlockStmt(body)) ensures lo <= a < c.declCount {
        var k :| 0 <= k < |body| && a in StmtIds(body[k]);
        assert StmtIdsIn(body[k], lo, c.declCount);
      }
    }
  }

  /** `block_stmt`: `{`, statements until `}`; an empty block is allowed. */
  function ParseBlock(s: seq<char>, i: nat, ctx: Ctx): (r: Parsed<seq<Stmt>, Ctx>)
    requires i <= |s| && CharAt(s, i, '{')
    ensures StmtsStep(s, i, ctx, [], r)
    decreases |s| - i, 1
  {
    match Skip(s, i + 1)
    case Some(k) => ParseStmtList(s, k, ctx, [])
    case None => Failed
  }

  /** The statements of a block after `acc`, up to and including `}`. */
  function ParseStmtList(s: seq<char>, k: nat, ctx: Ctx, acc: seq<Stmt>): (r: Parsed<seq<Stmt>, Ctx>)
    requires k <= |s|
    requires forall j :: 0 <= j < |acc| ==> StmtAllInt(acc[j])
    requires !ctx.errored ==> forall j :: 0 <= j < |acc| ==> StmtResolved(acc[j])
    ensures StmtsStep(s, k, ctx, acc, r)
    decreases |s| - k, 3
  {
    if CharAt(s, k, '}') then
      match Skip(s, k + 1)
      case Some(p) => Parsed(acc, p, ctx)
      case None => Failed
    else
      match ParseStmt(s, k, ctx)
      case Parsed(st, m, c) =>
        (AppendStmt(ctx, c, acc, st);
         ParseStmtList(s, m, c, acc + [st]))
      case Failed => Failed
      case Aborted(msg) => Aborted(msg)
  }

  /** One more statement keeps a statement list within what was allocated
      since `lo`. */
  lemma AppendStmt(ctx: Ctx, c: Ctx, acc: seq<Stmt>, st: Stmt)
    requires ctx.declCount <= c.declCount
    requires forall lo: nat | lo <= ctx.declCount :: LocalsFrom(ctx, lo) ==>
               LocalsFrom(c, lo) && StmtIdsIn(st, lo, c.declCount)
    ensures forall lo: nat | lo <= ctx.declCount :: BodyFrom(ctx, acc, lo) ==> BodyFrom(c, acc + [st], lo)
  {
    forall lo: nat | lo <= ctx.declCount && BodyFrom(ctx, acc, lo)
      ensures BodyFrom(c, acc + [st], lo)
    {
      forall k | 0 <= k < |acc + [st]| ensures StmtIdsIn((acc + [st])[k], lo, c.declCount) {
        if k < |acc| {
          assert StmtIdsIn(acc[k], lo, ctx.declCount);
        }
      }
    }
  }

  // ---------------------------------------------------------------------
  // Function definitions and the translation unit

  /** The identities of the declarations a function body makes or refers to. */
  function FunctionIds(f: FunctionDecl): set<nat> {
    set k, a | 0 <= k < |f.body| && a in StmtIds(f.body[k]) :: a
  }

  /** Every declaration a function mentions was allocated in [`lo`, `hi`). */
  predicate FunctionIdsIn(f: FunctionDecl, lo: nat, hi: nat) {
    forall a | a in FunctionIds(f) :: lo <= a < hi
  }

  /** Each node of the function is typed `int`, and the function itself
      returns `int`. */
  predicate FunctionAllInt(f: FunctionDecl) {
    f.ty == FunctionType(IntType) && forall k :: 0 <= k < |f.body| ==> StmtAllInt(f.body[k])
  }

  /** `function_definition`: `int`, a declarator, the local table emptied,
      and the body block. A definition is built only when the declarator is
      function(name); any other shape stops the compilation. */
  function ParseFunctionDefinition(s: seq<char>, i: nat, ctx: Ctx): (r: Parsed<FunctionDecl, Ctx>)
    requires i <= |s|
    ensures r.Parsed? ==>
      && i < r.pos <= |s|
      && Extends(ctx, r.state)
      && (Consistent(ctx) ==> Consistent(r.state))
      && FunctionAllInt(r.value)
      && (!r.state.errored ==> FunctionResolved(r.value))
      && FunctionIdsIn(r.value, ctx.declCount, r.state.declCount)
  {
    if !LitAt(s, i, KwInt) then Failed
    else
      match Skip(s, i + |KwInt|)
      case Some(k) =>
        (match ParseDeclarator(s, k)
         case DeclaratorOk(d, m) =>
           (var c := FunctionStart(ctx);
            if !CharAt(s, m, '{') then Failed
            else
              match ParseBlock(s, m, c)
              case Parsed(body, p, c') =>
                (assert BodyFrom(c, [], ctx.declCount);
                 assert BodyFrom(c', body, ctx.declCount);
                 match ResolveFunction(d, body)
                 case Some(f) => Parsed(f, p, c')
                 case None => Aborted(TodoNotFunctionDefinition))
              case Failed => Failed
              case Aborted(msg) => Aborted(msg))
         case DeclaratorFailed => Failed)
      case None => Failed
  }

  /** Functions of a translation unit are separated: every declaration an
      earlier function mentions was allocated before any a later one
      mentions, so no function refers to another one's locals. */
  predicate Separated(fs: seq<FunctionDecl>) {
    forall j, j', a, b :: 0 <= j < j' < |fs| && a in FunctionIds(fs[j]) && b in FunctionIds(fs[j']) ==> a < b
  }

  /** What holds of every function of a translation unit parsed with the
      final state `c`. */
  predicate WellFormedFunctions(fs: seq<FunctionDecl>, c: Ctx) {
    && (forall j :: 0 <= j < |fs| ==> FunctionAllInt(fs[j]))
    && (!c.errored ==> forall j :: 0 <= j < |fs| ==> FunctionResolved(fs[j]))
    && (forall j :: 0 <= j < |fs| ==> FunctionIdsIn(fs[j], 0, c.declCount))
    && Separated(fs)
  }

  /** `terminator(eof).list(function_definition)`: one function definition,
      then more until the end of the input. */
  function ParseFunctions(s: seq<char>, k: nat, ctx: Ctx, acc: seq<FunctionDecl>): (r: Parsed<seq<FunctionDecl>, Ctx>)
    requires k <= |s|
    requires WellFormedFunctions(acc, ctx)
    ensures r.Parsed? ==>
      && r.pos == |s| && acc < r.value
      && Extends(ctx, r.state)
      && (Consistent(ctx) ==> Consistent(r.state))
      && WellFormedFunctions(r.value, r.state)
    decreases |s| - k
  {
    match ParseFunctionDefinition(s, k, ctx)
    case Parsed(f, m, c) =>
      (AppendFunction(acc, ctx, f, c);
       if m == |s| then Parsed(acc + [f], m, c)
       else ParseFunctions(s, m, c, acc + [f]))
    case Failed => Failed
    case Aborted(msg) => Aborted(msg)
  }

  /** A function whose declarations were all allocated after those of the
      functions before it keeps the unit well formed. */
  lemma AppendFunction(acc: seq<FunctionDecl>, ctx: Ctx, f: FunctionDecl, c: Ctx)
    requires WellFormedFunctions(acc, ctx) && Extends(ctx, c)
    requires FunctionAllInt(f) && (!c.errored ==> FunctionResolved(f))
    requires FunctionIdsIn(f, ctx.declCount, c.declCount)
    ensures WellFormedFunctions(acc + [f], c)
  {
    var fs := acc + [f];
    forall j, j', a, b | 0 <= j < j' < |fs| && a in FunctionIds(fs[j]) && b in FunctionIds(fs[j'])
      ensures a < b
    {
      if j' == |acc| {
        assert a < ctx.declCount;
      } else {
        assert fs[j] == acc[j] && fs[j'] == acc[j'];
      }
    }
    forall j | 0 <= j < |fs| ensures FunctionIdsIn(fs[j], 0, c.declCount) {
      if j < |acc| {
        assert fs[j] == acc[j];
      }
    }
  }

  /** `translation_unit`: leading whitespace, then the function definitions. */
  function ParseTranslationUnit(s: seq<char>): (r: Parsed<seq<FunctionDecl>, Ctx>)
    ensures r.Parsed? ==>
      && r.pos == |s| && |r.value| > 0
      && Consistent(r.state)
      && WellFormedFunctions(r.value, r.state)
  {
    match Skip(s, 0)
    case Some(k) => ParseFunctions(s, k, Initial, [])
    case None => Failed
  }

  // ---------------------------------------------------------------------
  // compile

  /** The outcome of `compile`: an AST, nothing, or one of the source's
      `CLAUF_TODO` aborts. */
  datatype CompileResult = Compiled(ast: TranslationUnit) | NotCompiled | CompileAborted(reason: string)

  /** `compile`: the AST is returned only when the whole input parsed and no
      semantic error was reported on the way. */
  function Compile(s: seq<char>): (r: CompileResult)
    ensures var p := ParseTranslationUnit(s);
      && (r.Compiled? <==> p.Parsed? && p.state.diagnostics == [])
      && (r.CompileAborted? <==> p.Aborted?)
      && (r.Compiled? ==> r.ast.declarations == p.value)
    ensures r.Compiled? ==>
      var fs := r.ast.declarations;
      && |fs| > 0
      && (forall j :: 0 <= j < |fs| ==> FunctionAllInt(fs[j]) && FunctionResolved(fs[j]))
      && Separated(fs)
  {
    match ParseTranslationUnit(s)
    case Parsed(fs, _, c) => if c.errored then NotCompiled else Compiled(TranslationUnit(fs))
    case Failed => NotCompiled
    case Aborted(msg) => CompileAborted(msg)
  }
}
