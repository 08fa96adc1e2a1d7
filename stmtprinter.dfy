/** Statements, function definitions and translation units printed as text,
    and the proof that the statement grammar reads every printed program
    back as the same tree. With `ExprPrinter`, this pins down the AST that
    `compile` returns: a block holds the statements read, in order; a
    builtin or expression statement holds the expression read; a
    declaration statement holds one fresh variable per declarator; a
    function definition holds its name and its body; and the translation
    unit holds every definition, in order. */
module StmtPrinter {
  import opened Syntax
  import opened Lexical
  import opened Scope
  import opened Declarators
  import opened Expressions
  import opened ExprPrinter
  import opened Statements

  /** The keyword of a builtin statement. */
  function Keyword(k: BuiltinKindStmt): string {
    if k == Print then KwPrint else KwAssert
  }

  /** The declarators that declare the variables `vs`: their names. */
  function NameList(vs: seq<VariableDecl>): (ds: seq<Declarator>)
    ensures |ds| == |vs| && forall k :: 0 <= k < |vs| ==> ds[k] == NameDeclarator(vs[k].name)
  {
    seq(|vs|, k requires 0 <= k < |vs| => NameDeclarator(vs[k].name))
  }

  /** The text of a statement: an expression statement and a builtin
      statement end with `;`, a keyword is followed by one space, and a
      declaration lists its names after `int `. */
  function ShowStmt(st: Stmt): string
    decreases st, 0, 0
  {
    match st
    case ExprStmt(e) => Show(e, Top) + ";"
    case BuiltinStmt(k, e) => Keyword(k) + " " + Show(e, Top) + ";"
    case DeclStmt(vs) => "int " + (if vs == [] then "" else ShowDeclaratorList(NameList(vs))) + ";"
    case BlockStmt(body) => BlockText(body)
  }

  /** The statements of a block, one after the other. */
  function ShowStmts(body: seq<Stmt>): string
    decreases body, 0
  {
    if body == [] then "" else ShowStmt(body[0]) + ShowStmts(body[1..])
  }

  /** A block: its statements between braces. */
  function BlockText(body: seq<Stmt>): string
    decreases body, 1
  {
    "{" + ShowStmts(body) + "}"
  }

  /** The parser state after a statement read in state `ctx`: a declaration
      statement allocates and inserts its variables; a block runs its
      statements in turn; other statements leave the state alone. */
  function After(ctx: Ctx, st: Stmt): Ctx
    decreases st
  {
    match st
    case DeclStmt(vs) => DeclareFreshState(ctx, vs)
    case BlockStmt(body) => AfterAll(ctx, body)
    case _ => ctx
  }

  function AfterAll(ctx: Ctx, body: seq<Stmt>): Ctx
    decreases body
  {
    if body == [] then ctx else AfterAll(After(ctx, body[0]), body[1..])
  }

  /** The text starts with a keyword. An expression statement whose text
      does, say one starting with an identifier such as `integer`, is not
      read as an expression statement: the keywords are matched as
      literals, without checking what follows them. */
  predicate KeywordStart(t: string) {
    LitAt(t, 0, KwInt) || LitAt(t, 0, KwPrint) || LitAt(t, 0, KwAssert)
  }

  /** The declarations of a declaration statement read in state `ctx`: one
      or more `int` variables with valid names and consecutive fresh
      identities. */
  predicate FreshVariables(ctx: Ctx, vs: seq<VariableDecl>) {
    |vs| > 0 && forall k :: 0 <= k < |vs| ==> IsName(vs[k].name) && vs[k] == VariableDecl(ctx.declCount + k, vs[k].name, IntType)
  }

  /** A statement the parser can read back in state `ctx`: its expressions
      have no defect there, and each statement of a block is readable in
      the state the statements before it leave. */
  predicate ReadableStmt(ctx: Ctx, st: Stmt)
    decreases st
  {
    match st
    case ExprStmt(e) => Readable(ctx, e) && !KeywordStart(ShowStmt(st))
    case BuiltinStmt(_, e) => Readable(ctx, e)
    case DeclStmt(vs) => FreshVariables(ctx, vs)
    case BlockStmt(body) => ReadableStmts(ctx, body)
  }

  predicate ReadableStmts(ctx: Ctx, body: seq<Stmt>)
    decreases body
  {
    body == [] || (ReadableStmt(ctx, body[0]) && ReadableStmts(After(ctx, body[0]), body[1..]))
  }

  /** Appending the head of `xs`, then its tail, appends `xs`. */
  lemma ConsAppend<T>(acc: seq<T>, xs: seq<T>)
    requires xs != []
    ensures acc + [xs[0]] + xs[1..] == acc + xs
  {
    assert xs == [xs[0]] + xs[1..];
  }

  // ---------------------------------------------------------------------
  // Where statements start

  /** A character at which no whitespace starts and no block ends. */
  predicate Opener(c: char) {
    !IsSpace(c) && c != '/' && c != '}'
  }

  /** A readable statement's text starts with an opener. */
  lemma StmtStart(ctx: Ctx, st: Stmt)
    requires ReadableStmt(ctx, st)
    ensures |ShowStmt(st)| > 0 && Opener(ShowStmt(st)[0])
  {
    match st
    case ExprStmt(e) => ShowStart(ctx, e, Top);
    case BuiltinStmt(k, e) =>
    case DeclStmt(_) =>
    case BlockStmt(_) =>
  }

  /** Where a printed statement occurs, an opener is. */
  lemma StmtStartAt(s: seq<char>, k: nat, ctx: Ctx, st: Stmt)
    requires ReadableStmt(ctx, st) && LitAt(s, k, ShowStmt(st))
    ensures k < |s| && Opener(s[k])
  {
    StmtStart(ctx, st);
    assert s[k] == s[k..k + |ShowStmt(st)|][0];
  }

  /** Where the rest of a block is printed, no whitespace starts. */
  lemma RestStartAt(s: seq<char>, k: nat, ctx: Ctx, body: seq<Stmt>)
    requires ReadableStmts(ctx, body) && LitAt(s, k, ShowStmts(body) + "}")
    ensures k < |s| && !IsSpace(s[k]) && s[k] != '/'
    ensures !StartsWhitespace(s, k) && Skip(s, k) == Some(k)
  {
    if body == [] {
      assert s[k] == s[k..k + 1][0];
    } else {
      assert ShowStmts(body) + "}" == ShowStmt(body[0]) + (ShowStmts(body[1..]) + "}");
      SliceConcat(s, k, ShowStmt(body[0]), ShowStmts(body[1..]) + "}");
      StmtStartAt(s, k, ctx, body[0]);
    }
    SkipNone(s, k);
  }

  /** A keyword cannot be spelled where a text ending with `;` that does
      not start with it is printed. */
  lemma NotKeywordAt(s: seq<char>, i: nat, t: string, kw: string)
    requires LitAt(s, i, t) && |t| > 0 && t[|t| - 1] == ';' && !LitAt(t, 0, kw)
    requires forall m :: 0 <= m < |kw| ==> kw[m] != ';'
    ensures !LitAt(s, i, kw)
  {
    if |kw| <= |t| {
      assert t[0..|kw|] == s[i..i + |kw|] by {
        assert s[i..i + |kw|] == s[i..i + |t|][..|kw|];
      }
    } else if i + |kw| <= |s| {
      assert s[i..i + |kw|][|t| - 1] == t[|t| - 1] by {
        assert s[i..i + |kw|][|t| - 1] == s[i + |t| - 1] == s[i..i + |t|][|t| - 1];
      }
    }
  }

  // ---------------------------------------------------------------------
  // One statement each

  /** An expression statement is read as the expression before its `;`. */
  lemma ExprStmtRead(s: seq<char>, i: nat, ctx: Ctx, e: Expr)
    requires Readable(ctx, e) && !KeywordStart(Show(e, Top) + ";")
    requires LitAt(s, i, Show(e, Top) + ";") && !StartsWhitespace(s, i + |Show(e, Top)| + 1)
    ensures ParseStmt(s, i, ctx) == Parsed(ExprStmt(e), i + |Show(e, Top)| + 1, ctx)
  {
    ExprStmtText(s, i, ctx, e);
    ExprStmtBody(s, i, ctx, e, i + |Show(e, Top)|);
    ExprStmtDispatch(s, i, ctx);
  }

  lemma ExprStmtText(s: seq<char>, i: nat, ctx: Ctx, e: Expr)
    requires Readable(ctx, e) && !KeywordStart(Show(e, Top) + ";")
    requires LitAt(s, i, Show(e, Top) + ";")
    ensures LitAt(s, i, Show(e, Top)) && CharAt(s, i + |Show(e, Top)|, ';')
    ensures i < |s| && !CharAt(s, i, '{')
    ensures !LitAt(s, i, KwInt) && !LitAt(s, i, KwPrint) && !LitAt(s, i, KwAssert)
  {
    var t := Show(e, Top);
    var m := i + |t|;
    SliceConcat(s, i, t, ";");
    assert s[m] == s[m..m + 1][0];
    ShowStartAt(s, i, ctx, e, Top);
    NotKeywordAt(s, i, t + ";", KwInt);
    NotKeywordAt(s, i, t + ";", KwPrint);
    NotKeywordAt(s, i, t + ";", KwAssert);
  }

  lemma ExprStmtBody(s: seq<char>, i: nat, ctx: Ctx, e: Expr, m: nat)
    requires Readable(ctx, e) && LitAt(s, i, Show(e, Top)) && CharAt(s, i + |Show(e, Top)|, ';')
    requires m == i + |Show(e, Top)| && !StartsWhitespace(s, m + 1)
    ensures ParseExprStmt(s, i, ctx) == Parsed(ExprStmt(e), m + 1, ctx)
  {
    ReadBeforeSemicolon(ctx, s, i, e);
    ExprStmtSteps(s, i, ctx, e, m);
  }

  lemma ExprStmtSteps(s: seq<char>, i: nat, ctx: Ctx, e: Expr, m: nat)
    requires i <= |s| && ParseExpr(s, i, ctx, Top) == Parsed(e, m, ctx)
    requires CharAt(s, m, ';') && !StartsWhitespace(s, m + 1)
    ensures ParseExprStmt(s, i, ctx) == Parsed(ExprStmt(e), m + 1, ctx)
  {
    SemicolonAt(s, m);
  }

  /** A statement that starts with neither `{` nor a keyword is read as an
      expression statement. */
  lemma ExprStmtDispatch(s: seq<char>, i: nat, ctx: Ctx)
    requires i <= |s| && !CharAt(s, i, '{')
    requires !LitAt(s, i, KwInt) && !LitAt(s, i, KwPrint) && !LitAt(s, i, KwAssert)
    ensures ParseStmt(s, i, ctx) == ParseExprStmt(s, i, ctx)
  {
  }

  /** The spacing after a keyword, up to the expression that follows. */
  lemma KeywordSpace(s: seq<char>, i: nat, ctx: Ctx, kw: string, e: Expr)
    requires LitAt(s, i, kw + " " + Show(e, Top)) && Readable(ctx, e)
    ensures LitAt(s, i, kw) && LitAt(s, i + |kw| + 1, Show(e, Top))
    ensures Skip(s, i + |kw|) == Some(i + |kw| + 1)
  {
    Split3(s, i, kw, " ", Show(e, Top));
    assert s[i + |kw|] == s[i + |kw|..i + |kw| + 1][0];
    ShowStartAt(s, i + |kw| + 1, ctx, e, Top);
    SkipNone(s, i + |kw| + 1);
  }

  /** A builtin statement is read as its keyword and the expression after
      it. */
  lemma BuiltinRead(s: seq<char>, i: nat, ctx: Ctx, k: BuiltinKindStmt, e: Expr)
    requires Readable(ctx, e)
    requires LitAt(s, i, Keyword(k) + " " + Show(e, Top) + ";")
    requires !StartsWhitespace(s, i + |Keyword(k)| + 1 + |Show(e, Top)| + 1)
    ensures ParseStmt(s, i, ctx) == Parsed(BuiltinStmt(k, e), i + |Keyword(k)| + 1 + |Show(e, Top)| + 1, ctx)
  {
    var kw := Keyword(k);
    var t := Show(e, Top);
    var j := i + |kw| + 1;
    var m := j + |t|;
    SliceConcat(s, i, kw + " " + t, ";");
    KeywordSpace(s, i, ctx, kw, e);
    assert CharAt(s, m, ';') by { assert s[m] == s[m..m + 1][0]; }
    ReadBeforeSemicolon(ctx, s, j, e);
    BuiltinAt(s, i, ctx, k, e, j, m);
  }

  /** The steps of `ParseBuiltin`: the keyword, the spacing after it, the
      expression and its `;`. */
  lemma BuiltinAt(s: seq<char>, i: nat, ctx: Ctx, k: BuiltinKindStmt, e: Expr, j: nat, m: nat)
    requires i <= |s| && LitAt(s, i, Keyword(k)) && Skip(s, i + |Keyword(k)|) == Some(j)
    requires ParseExpr(s, j, ctx, Top) == Parsed(e, m, ctx)
    requires CharAt(s, m, ';') && !StartsWhitespace(s, m + 1)
    ensures ParseStmt(s, i, ctx) == Parsed(BuiltinStmt(k, e), m + 1, ctx)
  {
    BuiltinSteps(s, i, ctx, k, e, j, m);
    BuiltinDispatch(s, i, ctx, k);
  }

  lemma BuiltinSteps(s: seq<char>, i: nat, ctx: Ctx, k: BuiltinKindStmt, e: Expr, j: nat, m: nat)
    requires i <= |s| && LitAt(s, i, Keyword(k)) && Skip(s, i + |Keyword(k)|) == Some(j)
    requires ParseExpr(s, j, ctx, Top) == Parsed(e, m, ctx)
    requires CharAt(s, m, ';') && !StartsWhitespace(s, m + 1)
    ensures ParseBuiltin(s, i, ctx, k) == Parsed(BuiltinStmt(k, e), m + 1, ctx)
  {
    SemicolonAt(s, m);
  }

  /** A statement starting with a builtin keyword is read as that builtin
      statement. */
  lemma BuiltinDispatch(s: seq<char>, i: nat, ctx: Ctx, k: BuiltinKindStmt)
    requires i <= |s| && LitAt(s, i, Keyword(k))
    ensures ParseStmt(s, i, ctx) == ParseBuiltin(s, i, ctx, k)
  {
    var kw := Keyword(k);
    assert s[i] == s[i..i + |kw|][0] == '_';
    if k == Assert {
      assert s[i + 8] == s[i..i + |kw|][8] == 'a';
      assert !LitAt(s, i, KwPrint) by { assert KwPrint[8] == 'p'; }
    }
  }

  /** The declarator list of a declaration statement, up to its `;`. */
  lemma DeclaratorsRead(s: seq<char>, i: nat, ctx: Ctx, vs: seq<VariableDecl>) returns (e: nat)
    requires FreshVariables(ctx, vs)
    requires LitAt(s, i, "int " + ShowDeclaratorList(NameList(vs)) + ";")
    ensures e == i + 4 + |ShowDeclaratorList(NameList(vs))| && DeclText(s, i, NameList(vs), e)
  {
    var ds := NameList(vs);
    var l := ShowDeclaratorList(ds);
    e := i + 4 + |l|;
    Split3(s, i, "int ", l, ";");
    SliceConcat(s, i, "int", " ");
    assert s[e] == s[e..e + 1][0];
    assert s[i + 3] == s[i + 3..i + 4][0];
    assert NamedDeclarators(ds) by {
      forall m | 0 <= m < |ds| ensures IsName(Core(ds[m])) { assert ds[m] == NameDeclarator(vs[m].name); }
    }
    ShowDeclaratorStart(ds[0]);
    assert s[i + 4] == s[i + 4..i + 4 + |l|][0] == Core(ds[0])[0];
    SkipNone(s, i + 4);
    ParseShowDeclaratorList(s, i + 4, ds);
  }

  /** The text of a declaration statement at `i`: `int`, one space, the
      declarators `ds` and a `;` at `e`. */
  predicate DeclText(s: seq<char>, i: nat, ds: seq<Declarator>, e: nat) {
    && i <= |s| && LitAt(s, i, KwInt) && Skip(s, i + |KwInt|) == Some(i + 4)
    && i + 4 <= |s| && ParseDeclaratorList(s, i + 4) == ListOk(ds, e)
    && CharAt(s, e, ';')
  }

  /** A declaration statement is read as fresh variables named by its
      declarators, which are then inserted. */
  lemma DeclStmtRead(s: seq<char>, i: nat, ctx: Ctx, vs: seq<VariableDecl>)
    requires FreshVariables(ctx, vs)
    requires LitAt(s, i, "int " + ShowDeclaratorList(NameList(vs)) + ";")
    requires !StartsWhitespace(s, i + 4 + |ShowDeclaratorList(NameList(vs))| + 1)
    ensures ParseStmt(s, i, ctx)
         == Parsed(DeclStmt(vs), i + 4 + |ShowDeclaratorList(NameList(vs))| + 1, DeclareFreshState(ctx, vs))
  {
    var e := DeclaratorsRead(s, i, ctx, vs);
    DeclStmtSteps(s, i, ctx, vs, e);
    IntStmtIsDecl(s, i, ctx);
  }

  /** The steps of `ParseDeclStmt`: `int`, the spacing after it, the
      declarator list and its `;`, and the declaration of its variables. */
  lemma DeclStmtSteps(s: seq<char>, i: nat, ctx: Ctx, vs: seq<VariableDecl>, e: nat)
    requires FreshVariables(ctx, vs) && DeclText(s, i, NameList(vs), e) && !StartsWhitespace(s, e + 1)
    ensures ParseDeclStmt(s, i, ctx) == Parsed(DeclStmt(vs), e + 1, DeclareFreshState(ctx, vs))
  {
    SemicolonAt(s, e);
    FreshDeclared(ctx, vs, e + 1);
  }

  lemma SemicolonAt(s: seq<char>, e: nat)
    requires e <= |s| && CharAt(s, e, ';') && !StartsWhitespace(s, e + 1)
    ensures Semicolon(s, e) == Some(e + 1)
  {
    SkipNothing(s, e + 1);
  }

  /** Declarators that name fresh variables declare exactly those. */
  lemma FreshDeclared(ctx: Ctx, vs: seq<VariableDecl>, p: nat)
    requires FreshVariables(ctx, vs)
    ensures DeclareDeclarators(ctx, NameList(vs), p) == Parsed(DeclStmt(vs), p, DeclareFreshState(ctx, vs))
  {
    ResolveDeclaratorsNames(ctx.declCount, NameList(vs));
    assert ResolveDeclarators(ctx.declCount, NameList(vs)).decls == vs;
  }

  // ---------------------------------------------------------------------
  // The round trip for statements

  /** A readable statement, printed and followed by what starts no
      whitespace, is read back as the same statement, right after its text,
      in the state it leaves. */
  lemma ParseShowStmt(s: seq<char>, i: nat, ctx: Ctx, st: Stmt)
    requires ReadableStmt(ctx, st) && LitAt(s, i, ShowStmt(st)) && !StartsWhitespace(s, i + |ShowStmt(st)|)
    ensures ParseStmt(s, i, ctx) == Parsed(st, i + |ShowStmt(st)|, After(ctx, st))
    decreases st, 0, 0
  {
    match st
    case ExprStmt(e) =>
      ExprStmtRead(s, i, ctx, e);
    case BuiltinStmt(k, e) =>
      BuiltinRead(s, i, ctx, k, e);
    case DeclStmt(vs) =>
      DeclStmtRead(s, i, ctx, vs);
    case BlockStmt(body) =>
      assert s[i] == s[i..i + |ShowStmt(st)|][0] == '{';
      ParseShowBlock(s, i, ctx, body);
  }

  /** A block of readable statements is read back as those statements. */
  lemma ParseShowBlock(s: seq<char>, i: nat, ctx: Ctx, body: seq<Stmt>)
    requires ReadableStmts(ctx, body) && LitAt(s, i, BlockText(body))
    requires !StartsWhitespace(s, i + |BlockText(body)|)
    ensures CharAt(s, i, '{')
    ensures ParseBlock(s, i, ctx) == Parsed(body, i + |BlockText(body)|, AfterAll(ctx, body))
    decreases body, 1, 0
  {
    assert BlockText(body) == "{" + (ShowStmts(body) + "}");
    SliceConcat(s, i, "{", ShowStmts(body) + "}");
    assert s[i] == s[i..i + 1][0];
    RestStartAt(s, i + 1, ctx, body);
    assert ParseBlock(s, i, ctx) == ParseStmtList(s, i + 1, ctx, []);
    ParseShowStmts(s, i + 1, ctx, [], body, i + |BlockText(body)|);
    assert [] + body == body;
  }

  /** What reading the statements `body` of a block at `k`, after the
      statements `acc`, needs: `acc` holds only `int` nodes, resolved while
      `errored` is unset, and `body` is readable and printed at `k`, then
      the closing `}`. */
  predicate StmtsReady(s: seq<char>, k: nat, ctx: Ctx, acc: seq<Stmt>, body: seq<Stmt>) {
    && k <= |s|
    && (forall j :: 0 <= j < |acc| ==> StmtAllInt(acc[j]))
    && (!ctx.errored ==> forall j :: 0 <= j < |acc| ==> StmtResolved(acc[j]))
    && ReadableStmts(ctx, body)
    && LitAt(s, k, ShowStmts(body) + "}")
  }

  /** The statements of a block, followed by `}`, are read back in order
      after those read so far, up to position `n`, just past the `}`. */
  lemma ParseShowStmts(s: seq<char>, k: nat, ctx: Ctx, acc: seq<Stmt>, body: seq<Stmt>, n: nat)
    requires StmtsReady(s, k, ctx, acc, body)
    requires n == k + |ShowStmts(body)| + 1 && !StartsWhitespace(s, n)
    ensures ParseStmtList(s, k, ctx, acc) == Parsed(acc + body, n, AfterAll(ctx, body))
    decreases body, 0, 1
  {
    if body == [] {
      assert s[k] == s[k..k + 1][0];
      SkipNothing(s, k + 1);
      assert acc + body == acc;
    } else {
      var m, c, next, rest := ListStep(s, k, ctx, acc, body);
      ParseShowStmts(s, m, c, next, rest, n);
    }
  }

  /** Where a block's statements are printed, its first statement is, and
      the rest of them after it. */
  lemma ShowStmtsSplit(s: seq<char>, k: nat, body: seq<Stmt>)
    requires body != [] && LitAt(s, k, ShowStmts(body) + "}")
    ensures LitAt(s, k, ShowStmt(body[0]))
    ensures LitAt(s, k + |ShowStmt(body[0])|, ShowStmts(body[1..]) + "}")
    ensures k + |ShowStmts(body)| + 1 == k + |ShowStmt(body[0])| + |ShowStmts(body[1..])| + 1
  {
    assert ShowStmts(body) + "}" == ShowStmt(body[0]) + (ShowStmts(body[1..]) + "}");
    SliceConcat(s, k, ShowStmt(body[0]), ShowStmts(body[1..]) + "}");
  }

  /** The first statement of a block is read where no block ends, appended
      to those read so far, and the list goes on after it, where the rest of
      the block is printed. */
  lemma ListStep(s: seq<char>, k: nat, ctx: Ctx, acc: seq<Stmt>, body: seq<Stmt>)
      returns (m: nat, c: Ctx, next: seq<Stmt>, rest: seq<Stmt>)
    requires body != [] && StmtsReady(s, k, ctx, acc, body)
    ensures m == k + |ShowStmt(body[0])| && c == After(ctx, body[0])
    ensures next == acc + [body[0]] && rest == body[1..]
    ensures StmtsReady(s, m, c, next, rest)
    ensures k + |ShowStmts(body)| + 1 == m + |ShowStmts(rest)| + 1
    ensures ParseStmtList(s, k, ctx, acc) == ParseStmtList(s, m, c, next)
    ensures next + rest == acc + body && AfterAll(c, rest) == AfterAll(ctx, body)
    decreases body, 0, 0
  {
    var st := body[0];
    m, c, next, rest := k + |ShowStmt(st)|, After(ctx, st), acc + [st], body[1..];
    ShowStmtsSplit(s, k, body);
    RestStartAt(s, m, c, rest);
    StmtStartAt(s, k, ctx, st);
    ParseShowStmt(s, k, ctx, st);
    assert next + rest == acc + body;
  }

  // ---------------------------------------------------------------------
  // Function definitions and the translation unit

  /** The declarator of a function definition: its name and `()`. */
  function FunctionHead(f: FunctionDecl): Declarator {
    FunctionDeclarator(NameDeclarator(f.name))
  }

  /** The text of a function definition: `int`, one space, its declarator,
      and its body block. */
  function ShowFunction(f: FunctionDecl): string {
    "int " + ShowDeclarator(FunctionHead(f)) + BlockText(f.body)
  }

  /** The definitions of a translation unit, one after the other. */
  function ShowFunctions(fs: seq<FunctionDecl>): string {
    if fs == [] then "" else ShowFunction(fs[0]) + ShowFunctions(fs[1..])
  }

  /** The parser state after a function definition read in state `ctx`:
      its body runs on an emptied local table. */
  function FunctionAfter(ctx: Ctx, f: FunctionDecl): Ctx {
    AfterAll(FunctionStart(ctx), f.body)
  }

  function FunctionsAfter(ctx: Ctx, fs: seq<FunctionDecl>): Ctx
    decreases fs
  {
    if fs == [] then ctx else FunctionsAfter(FunctionAfter(ctx, fs[0]), fs[1..])
  }

  /** A function definition the parser can read back in state `ctx`: a
      valid name, the type `int()`, and a body readable on an emptied local
      table. */
  predicate ReadableFunction(ctx: Ctx, f: FunctionDecl) {
    IsName(f.name) && f.ty == FunctionType(IntType) && ReadableStmts(FunctionStart(ctx), f.body)
  }

  predicate ReadableFunctions(ctx: Ctx, fs: seq<FunctionDecl>)
    decreases fs
  {
    fs == [] || (ReadableFunction(ctx, fs[0]) && ReadableFunctions(FunctionAfter(ctx, fs[0]), fs[1..]))
  }

  /** The steps of `ParseFunctionDefinition`: `int`, the spacing after it,
      the declarator `f()`, and the body block on an emptied local table. */
  lemma FunctionAt(s: seq<char>, i: nat, ctx: Ctx, f: FunctionDecl, m: nat, p: nat, c: Ctx)
    requires i <= |s| && LitAt(s, i, KwInt) && Skip(s, i + |KwInt|) == Some(i + 4)
    requires i + 4 <= |s| && ParseDeclarator(s, i + 4) == DeclaratorOk(FunctionHead(f), m)
    requires CharAt(s, m, '{') && ParseBlock(s, m, FunctionStart(ctx)) == Parsed(f.body, p, c)
    requires f.ty == FunctionType(IntType)
    ensures ParseFunctionDefinition(s, i, ctx) == Parsed(f, p, c)
  {
  }

  /** The head of a printed function definition: `int`, one space, the
      declarator, up to the `{` of its body. */
  lemma HeadRead(s: seq<char>, i: nat, f: FunctionDecl, m: nat)
    requires IsName(f.name) && LitAt(s, i, "int " + ShowDeclarator(FunctionHead(f)))
    requires m == i + 4 + |ShowDeclarator(FunctionHead(f))| && CharAt(s, m, '{')
    ensures LitAt(s, i, KwInt) && Skip(s, i + |KwInt|) == Some(i + 4)
    ensures ParseDeclarator(s, i + 4) == DeclaratorOk(FunctionHead(f), m)
  {
    var d := FunctionHead(f);
    var h := ShowDeclarator(d);
    SliceConcat(s, i, "int ", h);
    SliceConcat(s, i, "int", " ");
    assert h == f.name + "()";
    assert s[i + 4] == f.name[0] by { assert s[i + 4] == s[i + 4..i + 4 + |h|][0] == h[0]; }
    assert s[i + 3] == s[i + 3..i + 4][0];
    SkipNone(s, i + 4);
    ParseShowDeclarator(s, i + 4, d);
  }

  /** A readable function definition, printed and followed by what starts
      no whitespace, is read back as the same definition. */
  lemma FunctionRead(s: seq<char>, i: nat, ctx: Ctx, f: FunctionDecl)
    requires ReadableFunction(ctx, f) && LitAt(s, i, ShowFunction(f))
    requires !StartsWhitespace(s, i + |ShowFunction(f)|)
    ensures ParseFunctionDefinition(s, i, ctx) == Parsed(f, i + |ShowFunction(f)|, FunctionAfter(ctx, f))
  {
    var m := i + 4 + |ShowDeclarator(FunctionHead(f))|;
    SliceConcat(s, i, "int " + ShowDeclarator(FunctionHead(f)), BlockText(f.body));
    FunctionParts(s, i, ctx, f, m, m + |BlockText(f.body)|);
  }

  /** `FunctionRead`, from the head and the body block printed one after
      the other. */
  lemma FunctionParts(s: seq<char>, i: nat, ctx: Ctx, f: FunctionDecl, m: nat, p: nat)
    requires ReadableFunction(ctx, f) && LitAt(s, i, "int " + ShowDeclarator(FunctionHead(f)))
    requires m == i + 4 + |ShowDeclarator(FunctionHead(f))| && LitAt(s, m, BlockText(f.body))
    requires p == m + |BlockText(f.body)| && !StartsWhitespace(s, p)
    ensures ParseFunctionDefinition(s, i, ctx) == Parsed(f, p, FunctionAfter(ctx, f))
  {
    BlockOpens(s, m, f.body);
    HeadRead(s, i, f, m);
    FunctionBodyAt(s, i, ctx, f, m, p);
  }

  lemma BlockOpens(s: seq<char>, i: nat, body: seq<Stmt>)
    requires LitAt(s, i, BlockText(body))
    ensures CharAt(s, i, '{')
  {
    assert s[i] == s[i..i + |BlockText(body)|][0];
  }

  /** The body block after the head `f()`. */
  lemma FunctionBodyAt(s: seq<char>, i: nat, ctx: Ctx, f: FunctionDecl, m: nat, p: nat)
    requires ReadableFunction(ctx, f)
    requires LitAt(s, i, KwInt) && Skip(s, i + |KwInt|) == Some(i + 4)
    requires ParseDeclarator(s, i + 4) == DeclaratorOk(FunctionHead(f), m)
    requires LitAt(s, m, BlockText(f.body)) && p == m + |BlockText(f.body)| && !StartsWhitespace(s, p)
    ensures ParseFunctionDefinition(s, i, ctx) == Parsed(f, p, FunctionAfter(ctx, f))
  {
    ParseShowBlock(s, m, FunctionStart(ctx), f.body);
    FunctionAt(s, i, ctx, f, m, p, AfterAll(FunctionStart(ctx), f.body));
  }

  /** What reading the definitions `fs` at `k`, after the definitions `acc`,
      needs: `acc` is well formed, and `fs` is readable and printed at `k`,
      up to the end of the input. */
  predicate FunctionsReady(s: seq<char>, k: nat, ctx: Ctx, acc: seq<FunctionDecl>, fs: seq<FunctionDecl>) {
    && k <= |s|
    && WellFormedFunctions(acc, ctx)
    && ReadableFunctions(ctx, fs)
    && LitAt(s, k, ShowFunctions(fs))
    && k + |ShowFunctions(fs)| == |s|
  }

  /** Where printed definitions are, the first one is, then the rest of
      them, which start with `int` unless the input ends. */
  lemma FunctionsText(s: seq<char>, k: nat, fs: seq<FunctionDecl>)
    requires fs != [] && LitAt(s, k, ShowFunctions(fs)) && k + |ShowFunctions(fs)| == |s|
    ensures LitAt(s, k, ShowFunction(fs[0])) && LitAt(s, k + |ShowFunction(fs[0])|, ShowFunctions(fs[1..]))
    ensures k + |ShowFunction(fs[0])| + |ShowFunctions(fs[1..])| == |s|
    ensures !StartsWhitespace(s, k + |ShowFunction(fs[0])|)
    ensures fs[1..] == [] <==> k + |ShowFunction(fs[0])| == |s|
  {
    var m := k + |ShowFunction(fs[0])|;
    assert ShowFunctions(fs) == ShowFunction(fs[0]) + ShowFunctions(fs[1..]);
    SliceConcat(s, k, ShowFunction(fs[0]), ShowFunctions(fs[1..]));
    if fs[1..] == [] {
      SkipNone(s, m);
    } else {
      var g := fs[1..][0];
      assert ShowFunctions(fs[1..]) == ShowFunction(g) + ShowFunctions(fs[1..][1..]);
      assert s[m] == s[m..m + |ShowFunctions(fs[1..])|][0] == ShowFunction(g)[0];
      SkipNone(s, m);
    }
  }

  /** A definition read after well-formed ones keeps them well formed. */
  lemma FunctionThen(s: seq<char>, k: nat, ctx: Ctx, acc: seq<FunctionDecl>, f: FunctionDecl)
    requires WellFormedFunctions(acc, ctx)
    requires ReadableFunction(ctx, f) && LitAt(s, k, ShowFunction(f))
    requires !StartsWhitespace(s, k + |ShowFunction(f)|)
    ensures k + |ShowFunction(f)| <= |s| && WellFormedFunctions(acc + [f], FunctionAfter(ctx, f))
    ensures ParseFunctionDefinition(s, k, ctx) == Parsed(f, k + |ShowFunction(f)|, FunctionAfter(ctx, f))
  {
    FunctionRead(s, k, ctx, f);
    AppendFunction(acc, ctx, f, FunctionAfter(ctx, f));
  }

  /** The unit ends after a definition read up to the end of the input... */
  lemma FunctionLast(s: seq<char>, k: nat, ctx: Ctx, acc: seq<FunctionDecl>, f: FunctionDecl, m: nat, c: Ctx)
    requires k <= |s| && WellFormedFunctions(acc, ctx)
    requires m == |s| && ParseFunctionDefinition(s, k, ctx) == Parsed(f, m, c)
    ensures ParseFunctions(s, k, ctx, acc) == Parsed(acc + [f], |s|, c)
  {
  }

  /** ... and goes on after one read before it. */
  lemma FunctionMore(s: seq<char>, k: nat, ctx: Ctx, acc: seq<FunctionDecl>, f: FunctionDecl, m: nat, c: Ctx)
    requires k <= |s| && WellFormedFunctions(acc, ctx)
    requires m < |s| && ParseFunctionDefinition(s, k, ctx) == Parsed(f, m, c)
    requires WellFormedFunctions(acc + [f], c)
    ensures ParseFunctions(s, k, ctx, acc) == ParseFunctions(s, m, c, acc + [f])
  {
  }

  /** The definitions of a translation unit, printed up to the end of the
      input, are read back in order after those read so far. */
  lemma {:induction false} ParseShowFunctions(s: seq<char>, k: nat, ctx: Ctx, acc: seq<FunctionDecl>, fs: seq<FunctionDecl>)
    requires fs != [] && FunctionsReady(s, k, ctx, acc, fs)
    ensures ParseFunctions(s, k, ctx, acc) == Parsed(acc + fs, |s|, FunctionsAfter(ctx, fs))
    decreases fs
  {
    var f, m := fs[0], k + |ShowFunction(fs[0])|;
    FunctionsText(s, k, fs);
    FunctionThen(s, k, ctx, acc, f);
    if fs[1..] == [] {
      FunctionLast(s, k, ctx, acc, f, m, FunctionAfter(ctx, f));
      assert fs == [f];
    } else {
      FunctionMore(s, k, ctx, acc, f, m, FunctionAfter(ctx, f));
      ParseShowFunctions(s, m, FunctionAfter(ctx, f), acc + [f], fs[1..]);
      ConsAppend(acc, fs);
    }
  }

  /** A readable translation unit, printed, is read back as the same
      definitions, in the state they leave. */
  lemma TranslationUnitRead(fs: seq<FunctionDecl>)
    requires fs != [] && ReadableFunctions(Initial, fs)
    ensures ParseTranslationUnit(ShowFunctions(fs)) == Parsed(fs, |ShowFunctions(fs)|, FunctionsAfter(Initial, fs))
  {
    var s := ShowFunctions(fs);
    assert LitAt(s, 0, s) by { assert s[0..|s|] == s; }
    assert LitAt(s, 0, ShowFunction(fs[0])) by {
      assert s == ShowFunction(fs[0]) + ShowFunctions(fs[1..]);
      SliceConcat(s, 0, ShowFunction(fs[0]), ShowFunctions(fs[1..]));
    }
    assert s[0] == s[0..|ShowFunction(fs[0])|][0] == 'i';
    SkipNone(s, 0);
    ParseShowFunctions(s, 0, Initial, [], fs);
    assert [] + fs == fs;
  }

  /** `compile` returns the printed translation unit itself exactly when
      reading it reports no diagnostic. */
  lemma CompileShow(fs: seq<FunctionDecl>)
    requires fs != [] && ReadableFunctions(Initial, fs)
    ensures Compile(ShowFunctions(fs))
         == if FunctionsAfter(Initial, fs).errored then NotCompiled else Compiled(TranslationUnit(fs))
  {
    TranslationUnitRead(fs);
  }

  // ---------------------------------------------------------------------
  // Examples

  /** `int x,x;` declares two distinct variables named `x`; the second one
      replaces the first in the local table, and the duplicate is
      reported. */
  lemma DuplicateDeclExample()
    ensures ParseStmt("int x,x;", 0, Initial)
      == Parsed(DeclStmt([VariableDecl(0, "x", IntType), VariableDecl(1, "x", IntType)]), 8,
                Ctx(map["x" := VariableDecl(1, "x", IntType)], true, [DuplicateLocal("x")], 2))
  {
    var vs := [VariableDecl(0, "x", IntType), VariableDecl(1, "x", IntType)];
    DuplicateDeclText(vs);
    DuplicateDeclState(vs);
    DeclStmtRead("int x,x;", 0, Initial, vs);
  }

  lemma DuplicateDeclText(vs: seq<VariableDecl>)
    requires vs == [VariableDecl(0, "x", IntType), VariableDecl(1, "x", IntType)]
    ensures FreshVariables(Initial, vs)
    ensures LitAt("int x,x;", 0, "int " + ShowDeclaratorList(NameList(vs)) + ";")
    ensures 4 + |ShowDeclaratorList(NameList(vs))| + 1 == 8 && !StartsWhitespace("int x,x;", 8)
  {
    var d := NameDeclarator("x");
    assert IsName("x") by { assert !LitAt("x", 0, KwInt); }
    assert NameList(vs) == [d, d];
    assert ShowDeclaratorTail([d]) == ",x" by { assert [d][1..] == []; }
    assert [d, d][1..] == [d];
    assert ShowDeclaratorList(NameList(vs)) == "x,x";
    assert "int " + "x,x" + ";" == "int x,x;";
  }

  lemma DuplicateDeclState(vs: seq<VariableDecl>)
    requires vs == [VariableDecl(0, "x", IntType), VariableDecl(1, "x", IntType)]
    ensures DeclareFreshState(Initial, vs) == Ctx(map["x" := vs[1]], true, [DuplicateLocal("x")], 2)
  {
    var c := Initial.(declCount := 2);
    assert vs[..1] == [vs[0]] && [vs[0]][..0] == [];
    var c1 := Declare(c, vs[0]);
    assert DeclareAll(c, [vs[0]]) == c1;
    assert c1.locals == map["x" := vs[0]] && !c1.errored && c1.diagnostics == [];
    var c2 := Declare(c1, vs[1]);
    assert DeclareAll(c, vs) == c2;
    assert c2.locals == map["x" := vs[1]];
  }
  /** A function that asserts `1+2*3==7` compiles to one function holding
      one builtin statement over that expression tree. */
  lemma AssertProgramExample()
    ensures Compile("int main(){__clauf_assert 1+2*3==7;}")
      == Compiled(TranslationUnit([FunctionDecl("main", FunctionType(IntType), [
           BuiltinStmt(Assert, Binary(IntType, Eq,
             Binary(IntType, Add, Num(1), Binary(IntType, Mul, Num(2), Num(3))), Num(7)))])]))
  {
    var e := Binary(IntType, Eq, Binary(IntType, Add, Num(1), Binary(IntType, Mul, Num(2), Num(3))), Num(7));
    var f := FunctionDecl("main", FunctionType(IntType), [BuiltinStmt(Assert, e)]);
    AssertProgramText(f);
    CompileShow([f]);
  }

  lemma AssertProgramText(f: FunctionDecl)
    requires f == FunctionDecl("main", FunctionType(IntType), [BuiltinStmt(Assert, Binary(IntType, Eq,
      Binary(IntType, Add, Num(1), Binary(IntType, Mul, Num(2), Num(3))), Num(7)))])
    ensures ReadableFunctions(Initial, [f]) && !FunctionsAfter(Initial, [f]).errored
    ensures ShowFunctions([f]) == "int main(){__clauf_assert 1+2*3==7;}"
  {
    AssertExprText(FunctionStart(Initial), f.body[0].expr);
    AssertProgramReadable(f);
    AssertProgramShown(f, f.body[0].expr);
  }

  lemma AssertProgramReadable(f: FunctionDecl)
    requires f.name == "main" && f.ty == FunctionType(IntType) && |f.body| == 1 && f.body[0].BuiltinStmt?
    requires Readable(FunctionStart(Initial), f.body[0].expr)
    ensures ReadableFunctions(Initial, [f]) && !FunctionsAfter(Initial, [f]).errored
  {
    var c := FunctionStart(Initial);
    MainName();
    assert f.body[1..] == [];
    assert ReadableStmts(c, f.body);
    assert [f][1..] == [];
    assert AfterAll(c, f.body) == c;
  }

  lemma AssertProgramShown(f: FunctionDecl, x: Expr)
    requires f.name == "main" && f.body == [BuiltinStmt(Assert, x)] && Show(x, Top) == "1+2*3==7"
    ensures ShowFunctions([f]) == "int main(){__clauf_assert 1+2*3==7;}"
  {
    AssertStmtPiece();
    AssertBlockPiece();
    AssertFunctionPiece();
    assert f.body[1..] == [];
    assert ShowStmts(f.body) == ShowStmt(f.body[0]) == "__clauf_assert 1+2*3==7;";
    assert ShowDeclarator(FunctionHead(f)) == "main()";
    assert [f][1..] == [];
  }

  lemma AssertStmtPiece()
    ensures Keyword(Assert) + " " + "1+2*3==7" + ";" == "__clauf_assert 1+2*3==7;"
  {
    assert Keyword(Assert) == "__clauf_assert";
  }

  lemma AssertBlockPiece()
    ensures "{" + "__clauf_assert 1+2*3==7;" + "}" == "{__clauf_assert 1+2*3==7;}"
  {
  }

  lemma AssertFunctionPiece()
    ensures "int " + "main()" + "{__clauf_assert 1+2*3==7;}" == "int main(){__clauf_assert 1+2*3==7;}"
  {
  }

  lemma AssertExprText(c: Ctx, e: Expr)
    requires e == Binary(IntType, Eq, Binary(IntType, Add, Num(1), Binary(IntType, Mul, Num(2), Num(3))), Num(7))
    ensures Readable(c, e) && Show(e, Top) == "1+2*3==7"
  {
    NumReadable(c, 7);
    AddMulText(c, e.left);
    assert Show(e.right, Level(Bin(Eq)) - 1) == "7";
  }

  lemma AddMulText(c: Ctx, e: Expr)
    requires e == Binary(IntType, Add, Num(1), Binary(IntType, Mul, Num(2), Num(3)))
    ensures Readable(c, e) && Show(e, Level(Bin(Eq))) == "1+2*3"
  {
    NumReadable(c, 1);
    NumReadable(c, 2);
    NumReadable(c, 3);
    assert Show(e.right, Level(Bin(Add)) - 1) == "2*3";
  }

  lemma MainName()
    ensures IsName("main")
  {
    assert |"main"| != |KwInt| && |"main"| != |KwPrint| && |"main"| != |KwAssert|;
    assert forall m :: 1 <= m < |"main"| ==> "main"[m] in {'a', 'i', 'n'};
  }

  /** A declared name is visible to the statements after it: in
      `int f(){int x;x;}` the identifier refers to the declaration. */
  lemma ScopeProgramExample()
    ensures Compile("int f(){int x;x;}")
      == Compiled(TranslationUnit([FunctionDecl("f", FunctionType(IntType), [
           DeclStmt([VariableDecl(0, "x", IntType)]),
           ExprStmt(Identifier(IntType, Some(VariableDecl(0, "x", IntType))))])]))
  {
    var v := VariableDecl(0, "x", IntType);
    var f := FunctionDecl("f", FunctionType(IntType), [DeclStmt([v]), ExprStmt(Identifier(IntType, Some(v)))]);
    ScopeProgramText(f);
    CompileShow([f]);
  }

  lemma ScopeProgramText(f: FunctionDecl)
    requires f == FunctionDecl("f", FunctionType(IntType), [DeclStmt([VariableDecl(0, "x", IntType)]),
      ExprStmt(Identifier(IntType, Some(VariableDecl(0, "x", IntType))))])
    ensures ReadableFunctions(Initial, [f]) && !FunctionsAfter(Initial, [f]).errored
    ensures ShowFunctions([f]) == "int f(){int x;x;}"
  {
    var v := VariableDecl(0, "x", IntType);
    var rest := f.body[1..];
    assert rest == [ExprStmt(Identifier(IntType, Some(v)))];
    var c1 := ScopeState(FunctionStart(Initial), v);
    ScopeUse(c1, v, rest);
    ScopeDeclText(v);
    ScopeProgramReadable(f, v, c1);
    ScopeProgramShown(f, v);
  }

  lemma ScopeProgramReadable(f: FunctionDecl, v: VariableDecl, c1: Ctx)
    requires f.name == "f" && f.ty == FunctionType(IntType) && |f.body| == 2 && f.body[0] == DeclStmt([v])
    requires v == VariableDecl(0, "x", IntType) && c1 == After(FunctionStart(Initial), DeclStmt([v]))
    requires ReadableStmts(c1, f.body[1..]) && AfterAll(c1, f.body[1..]) == c1 && !c1.errored
    ensures ReadableFunctions(Initial, [f]) && !FunctionsAfter(Initial, [f]).errored
  {
    var c0 := FunctionStart(Initial);
    assert IsName("f") by { assert !LitAt("f", 0, KwInt); }
    assert ReadableStmt(c0, DeclStmt([v])) by { assert IsName("x") by { assert !LitAt("x", 0, KwInt); } }
    assert ReadableStmts(c0, f.body);
    assert [f][1..] == [];
    assert AfterAll(c0, f.body) == c1;
  }

  lemma ScopeProgramShown(f: FunctionDecl, v: VariableDecl)
    requires f.name == "f" && |f.body| == 2 && f.body[0] == DeclStmt([v])
    requires ShowStmt(DeclStmt([v])) == "int x;" && ShowStmts(f.body[1..]) == "x;"
    ensures ShowFunctions([f]) == "int f(){int x;x;}"
  {
    assert ShowStmts(f.body) == "int x;x;";
    assert ShowDeclarator(FunctionHead(f)) == "f()";
    assert [f][1..] == [];
  }

  lemma ScopeState(c0: Ctx, v: VariableDecl) returns (c1: Ctx)
    requires c0 == FunctionStart(Initial) && v == VariableDecl(0, "x", IntType)
    ensures c1 == After(c0, DeclStmt([v]))
    ensures c1 == Ctx(map["x" := v], false, [], 1)
  {
    c1 := After(c0, DeclStmt([v]));
    var c := c0.(declCount := 1);
    assert [v][..0] == [];
    assert DeclareAll(c, [v]) == Declare(c, v);
  }

  lemma ScopeUse(c1: Ctx, v: VariableDecl, rest: seq<Stmt>)
    requires c1 == Ctx(map["x" := v], false, [], 1) && v == VariableDecl(0, "x", IntType)
    requires rest == [ExprStmt(Identifier(IntType, Some(v)))]
    ensures ReadableStmts(c1, rest) && AfterAll(c1, rest) == c1 && ShowStmts(rest) == "x;"
  {
    assert IsName("x") by { assert !LitAt("x", 0, KwInt); }
    assert rest[1..] == [];
    assert ShowStmt(rest[0]) == "x;";
    assert !KeywordStart("x;");
  }

  lemma ScopeDeclText(v: VariableDecl)
    requires v == VariableDecl(0, "x", IntType)
    ensures ShowStmt(DeclStmt([v])) == "int x;"
  {
    assert NameList([v]) == [NameDeclarator("x")];
    assert [NameDeclarator("x")][1..] == [];
    assert ShowDeclaratorList(NameList([v])) == "x";
  }
}
