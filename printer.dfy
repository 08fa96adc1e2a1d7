/** Expression trees printed with the fewest parentheses the precedence
    levels allow, and the proof that the expression grammar reads every
    printed tree back as the same tree. The round trip pins down what the
    parser builds: which operator binds tighter, which way each level
    associates, which node each operator makes, the value of a literal and
    the declaration an identifier is bound to. */
module ExprPrinter {
  import opened Syntax
  import opened Lexical
  import opened Scope
  import opened Expressions

  /** Nodes built by an infix operator (including `?:`). */
  predicate IsInfix(e: Expr) {
    e.Binary? || e.SequencedBinary? || e.Conditional? || e.Assignment?
  }

  /** The operator that builds an infix node. */
  function OpOf(e: Expr): (op: InfixOp)
    requires IsInfix(e)
    ensures e.Conditional? <==> op == Question
    ensures e.Assignment? <==> op == Assign
  {
    match e
    case Binary(_, b, _, _) => Bin(b)
    case SequencedBinary(_, q, _, _) => Seq(q)
    case Conditional(_, _, _, _) => Question
    case Assignment(_, _, _, _) => Assign
  }

  /** The level a node binds at: its operator's level; 0 for literals,
      identifiers and prefix operators. */
  function NodeLevel(e: Expr): (l: nat)
    ensures l <= Top
    ensures l == 0 <==> !IsInfix(e)
  {
    if IsInfix(e) then Level(OpOf(e)) else 0
  }

  /** The text of `e` where an expression of `level` is expected: a node
      that binds more loosely is parenthesized. The operands of a
      left-associative operator are printed at its level on the left and one
      level tighter on the right; a right-associative operator the other way
      round; the middle operand of `?:` is a whole expression. */
  function Show(e: Expr, level: nat): string
    decreases e, if NodeLevel(e) > level then 1 else 0
  {
    if NodeLevel(e) > level then "(" + Show(e, Top) + ")"
    else
      match e
      case IntegerConstant(_, v) => LiteralText(v, 10)
      case Identifier(_, d) => if d.Some? then d.value.name else ""
      case Unary(_, op, x) => [UnarySpelling(op)] + Show(x, 0)
      case Binary(_, b, l, r) => Show(l, Level(Bin(b))) + Spelling(Bin(b)) + Show(r, Level(Bin(b)) - 1)
      case SequencedBinary(_, q, l, r) =>
        if q == Comma then Show(l, Top - 1) + "," + Show(r, Top)
        else Show(l, Level(Seq(q))) + Spelling(Seq(q)) + Show(r, Level(Seq(q)) - 1)
      case Conditional(_, c, t, f) => Show(c, 10) + "?" + Show(t, Top) + ":" + Show(f, 11)
      case Assignment(_, _, l, r) => Show(l, 11) + "=" + Show(r, 12)
  }

  /** A tree the parser can produce without a diagnostic in state `ctx`:
      no node is defective. */
  predicate Readable(ctx: Ctx, e: Expr) {
    Defects(ctx, e) == 0
  }

  /** A node is defective unless it is typed `int`, a literal fits in 64
      bits, and an identifier is a valid name bound in the local table to
      the declaration the node refers to. */
  function NodeDefect(ctx: Ctx, e: Expr): (n: nat)
    ensures n <= 1
  {
    var ok :=
      match e
      case IntegerConstant(_, v) => v <= MaxU64
      case Identifier(_, d) =>
        d.Some? && IsName(d.value.name) && d.value.name in ctx.locals && ctx.locals[d.value.name] == d.value
      case _ => true;
    if e.ty == IntType && ok then 0 else 1
  }

  /** The number of defective nodes in `e`. */
  function Defects(ctx: Ctx, e: Expr): nat {
    NodeDefect(ctx, e) +
    match e
    case IntegerConstant(_, _) => 0
    case Identifier(_, _) => 0
    case Unary(_, _, x) => Defects(ctx, x)
    case Binary(_, _, l, r) => Defects(ctx, l) + Defects(ctx, r)
    case SequencedBinary(_, _, l, r) => Defects(ctx, l) + Defects(ctx, r)
    case Conditional(_, c, t, f) => Defects(ctx, c) + Defects(ctx, t) + Defects(ctx, f)
    case Assignment(_, _, l, r) => Defects(ctx, l) + Defects(ctx, r)
  }

  /** The operands of a readable infix node are readable. */
  lemma ReadableOperands(ctx: Ctx, e: Expr)
    requires Readable(ctx, e) && IsInfix(e) && !e.Conditional?
    ensures Readable(ctx, e.left) && Readable(ctx, e.right)
  {
  }

  /** The three operands of a readable conditional are readable. */
  lemma ReadableBranches(ctx: Ctx, e: Expr)
    requires Readable(ctx, e) && e.Conditional?
    ensures Readable(ctx, e.condition) && Readable(ctx, e.ifTrue) && Readable(ctx, e.ifFalse)
  {
  }

  /** A readable tree has only `int` nodes and refers only to the table. */
  lemma {:induction false} ReadableFacts(ctx: Ctx, e: Expr)
    requires Readable(ctx, e)
    ensures AllInt(e) && Resolved(e) && LocalRefs(ctx, e)
  {
    match e
    case IntegerConstant(_, _) =>
    case Identifier(_, d) =>
      assert ctx.locals[d.value.name].id in LocalIds(ctx);
    case Unary(_, _, x) => ReadableFacts(ctx, x);
    case Binary(_, _, l, r) => ReadableFacts(ctx, l); ReadableFacts(ctx, r);
    case SequencedBinary(_, _, l, r) => ReadableFacts(ctx, l); ReadableFacts(ctx, r);
    case Conditional(_, c, t, f) => ReadableFacts(ctx, c); ReadableFacts(ctx, t); ReadableFacts(ctx, f);
    case Assignment(_, _, l, r) => ReadableFacts(ctx, l); ReadableFacts(ctx, r);
  }

  // ---------------------------------------------------------------------
  // The printed text

  /** A character that can start an operand. */
  predicate OperandStart(c: char) {
    c == '(' || IsIdentStart(c) || IsDecimalDigit(c) || c == '+' || c == '-' || c == '~' || c == '!'
  }

  /** Every printed expression starts an operand. */
  lemma {:induction false} ShowStart(ctx: Ctx, e: Expr, level: nat)
    requires Readable(ctx, e)
    ensures |Show(e, level)| > 0 && OperandStart(Show(e, level)[0])
    decreases e
  {
    if NodeLevel(e) <= level {
      match e
      case IntegerConstant(_, v) =>
        assert IsDigitOf(ToDigits(v, 10)[0], 10);
      case Identifier(_, _) =>
      case Unary(_, _, _) =>
      case Binary(_, b, l, _) => ShowStart(ctx, l, Level(Bin(b)));
      case SequencedBinary(_, q, l, _) =>
        if q == Comma { ShowStart(ctx, l, Top - 1); } else { ShowStart(ctx, l, Level(Seq(q))); }
      case Conditional(_, c, _, _) => ShowStart(ctx, c, 10);
      case Assignment(_, _, l, _) => ShowStart(ctx, l, 11);
    }
  }

  /** Where a printed expression occurs, an operand starts. */
  lemma ShowStartAt(s: seq<char>, k: nat, ctx: Ctx, e: Expr, level: nat)
    requires Readable(ctx, e) && LitAt(s, k, Show(e, level))
    ensures k < |s| && OperandStart(s[k])
  {
    ShowStart(ctx, e, level);
    assert s[k] == s[k..k + |Show(e, level)|][0];
  }

  /** A node printed where a level at least as loose as its own is expected
      needs no parentheses, so its text does not depend on that level. */
  lemma ShowSame(e: Expr, level: nat)
    requires NodeLevel(e) <= level
    ensures Show(e, level) == Show(e, Top)
  {
  }

  /** Away from its own level, a node is printed alike at `level` and one
      level tighter. */
  lemma ShowBelow(e: Expr, level: nat)
    requires 1 <= level && NodeLevel(e) != level
    ensures Show(e, level) == Show(e, level - 1)
  {
  }

  /** Three texts one after the other. */
  lemma Split3(s: seq<char>, i: nat, a: string, b: string, c: string)
    requires LitAt(s, i, a + b + c)
    ensures LitAt(s, i, a) && LitAt(s, i + |a|, b) && LitAt(s, i + |a| + |b|, c)
  {
    SliceConcat(s, i, a + b, c);
    SliceConcat(s, i, a, b);
  }

  /** Three texts one after the other, and where the second and the third
      start. */
  lemma SplitAt(s: seq<char>, i: nat, a: string, b: string, c: string) returns (p: nat, k: nat)
    requires LitAt(s, i, a + b + c)
    ensures LitAt(s, i, a) && p == i + |a| && LitAt(s, p, b) && k == p + |b| && LitAt(s, k, c)
    ensures i + |a + b + c| == k + |c|
  {
    Split3(s, i, a, b, c);
    p := i + |a|;
    k := p + |b|;
  }

  /** Five texts one after the other, of which the second and the fourth
      are one character long. */
  lemma Split5(s: seq<char>, i: nat, a: string, b: string, c: string, d: string, f: string)
    returns (p: nat, q: nat)
    requires |b| == 1 && |d| == 1 && LitAt(s, i, a + b + c + d + f)
    ensures LitAt(s, i, a) && p == i + |a| && LitAt(s, p, b) && LitAt(s, p + 1, c)
    ensures q == p + 1 + |c| && LitAt(s, q, d) && LitAt(s, q + 1, f)
    ensures i + |a + b + c + d + f| == q + 1 + |f|
  {
    Split3(s, i, a + b + c, d, f);
    Split3(s, i, a, b, c);
    p := i + |a|;
    q := p + 1 + |c|;
  }

  /** After an expression of `level`, parsing stops: no whitespace starts,
      no token continues, and no operator of `level` or tighter follows. */
  predicate Stops(s: seq<char>, p: nat, level: nat) {
    !StartsWhitespace(s, p) && EndsToken(s, p)
    && (InfixAt(s, p).None? || Level(InfixAt(s, p).value) > level)
  }

  /** An operator spelled before an operand is read as that operator, and
      stops the operand before it. */
  lemma OperatorRead(s: seq<char>, p: nat, k: nat, op: InfixOp)
    requires LitAt(s, p, Spelling(op)) && k == p + |Spelling(op)|
    requires k < |s| && OperandStart(s[k])
    ensures OpAt(s, p, k, op)
    ensures !StartsWhitespace(s, p) && EndsToken(s, p)
  {
    var n := |Spelling(op)|;
    assert s[p] == Spelling(op)[0] by { assert s[p..p + n][0] == s[p]; }
    if n == 2 {
      assert s[p + 1] == Spelling(op)[1] by { assert s[p..p + n][1] == s[p + 1]; }
    }
    OperatorFound(s, p, op);
    SkipNone(s, k);
  }

  /** The characters of an operator's spelling, followed by an operand when
      the spelling is one character long, are read as that operator. */
  lemma OperatorFound(s: seq<char>, p: nat, op: InfixOp)
    requires p + |Spelling(op)| < |s| && s[p] == Spelling(op)[0]
    requires |Spelling(op)| == 2 ==> s[p + 1] == Spelling(op)[1]
    requires |Spelling(op)| == 1 ==> OperandStart(s[p + 1])
    ensures InfixAt(s, p) == Some(op)
  {
  }

  /** A `?` before an operand is the operator of a conditional, and stops
      the condition before it. */
  lemma QuestionRead(s: seq<char>, p: nat, ctx: Ctx, t: Expr, level: nat)
    requires LitAt(s, p, "?") && Readable(ctx, t) && LitAt(s, p + 1, Show(t, level))
    ensures OpAt(s, p, p + 1, Question) && Stops(s, p, 10)
  {
    ShowStartAt(s, p + 1, ctx, t, level);
    assert Spelling(Question) == "?" && Level(Question) == 11;
    OperatorRead(s, p, p + 1, Question);
  }

  /** A `:` before an operand is where the middle of a conditional ends. */
  lemma ColonRead(s: seq<char>, q: nat, ctx: Ctx, f: Expr, level: nat)
    requires LitAt(s, q, ":") && Readable(ctx, f) && LitAt(s, q + 1, Show(f, level))
    ensures ColonAt(s, q) && Stops(s, q, Top)
  {
    ShowStartAt(s, q + 1, ctx, f, level);
    CloserStops(s, q, ':', Top);
    SkipNone(s, q + 1);
  }

  /** A closing `)` or `:` stops an expression of any level. */
  lemma CloserStops(s: seq<char>, q: nat, c: char, level: nat)
    requires (c == ')' || c == ':') && LitAt(s, q, [c])
    ensures CharAt(s, q, c) && Stops(s, q, level)
  {
    assert s[q] == s[q..q + 1][0];
  }

  // ---------------------------------------------------------------------
  // One step of the parser each

  /** A decimal literal is read as its value. */
  lemma LiteralStep(s: seq<char>, i: nat, ctx: Ctx, v: nat)
    requires v <= MaxU64 && LitAt(s, i, LiteralText(v, 10))
    requires Stops(s, i + |LiteralText(v, 10)|, 0)
    ensures ParseExpr(s, i, ctx, 0) == Parsed(IntegerConstant(IntType, v), i + |LiteralText(v, 10)|, ctx)
  {
    var t := LiteralText(v, 10);
    var j := i + |t|;
    assert s[i] == t[0] by { assert s[i..i + |t|][0] == s[i]; }
    assert IsDigitOf(t[0], 10);
    assert IsDecimalDigit(s[i]);
    IntegerLiteralRoundTrip(s, i, v, 10);
    SkipNothing(s, j);
    assert UnaryAt(s, i) == None;
    assert ParseAtom(s, i, ctx) == Parsed(IntegerConstant(IntType, v), j, ctx);
    assert ParseUnary(s, i, ctx) == ParseAtom(s, i, ctx);
  }

  /** A bound name is read as an identifier referring to its binding. */
  lemma IdentStep(s: seq<char>, i: nat, ctx: Ctx, d: VariableDecl)
    requires IsName(d.name) && d.name in ctx.locals && ctx.locals[d.name] == d
    requires LitAt(s, i, d.name) && Stops(s, i + |d.name|, 0)
    ensures ParseExpr(s, i, ctx, 0) == Parsed(Identifier(IntType, Some(d)), i + |d.name|, ctx)
  {
    NameAt(s, i, d.name);
    assert UnaryAt(s, i) == None && !CharAt(s, i, '(');
    assert LookupIdentifier(ctx, d.name) == (Identifier(IntType, Some(d)), ctx);
    assert ParseAtom(s, i, ctx) == Parsed(Identifier(IntType, Some(d)), i + |d.name|, ctx);
    assert ParseUnary(s, i, ctx) == ParseAtom(s, i, ctx);
  }

  /** A valid name bound to nothing is still read as an identifier, one
      without a declaration: the unknown identifier is reported, `errored`
      is set, and parsing goes on. */
  lemma UnboundStep(s: seq<char>, i: nat, ctx: Ctx, n: string)
    requires IsName(n) && n !in ctx.locals
    requires LitAt(s, i, n) && Stops(s, i + |n|, 0)
    ensures ParseExpr(s, i, ctx, 0)
         == Parsed(Identifier(IntType, None), i + |n|,
                   ctx.(errored := true, diagnostics := ctx.diagnostics + [UnknownIdentifier(n)]))
  {
    NameAt(s, i, n);
    assert UnaryAt(s, i) == None && !CharAt(s, i, '(');
    assert ParseUnary(s, i, ctx) == ParseAtom(s, i, ctx);
  }

  /** A prefix operator before an operand wraps it. */
  lemma UnaryStep(s: seq<char>, i: nat, ctx: Ctx, op: UnaryOp, x: Expr, end: nat)
    requires CharAt(s, i, UnarySpelling(op)) && i + 1 < |s| && OperandStart(s[i + 1])
    requires ParseExpr(s, i + 1, ctx, 0) == Parsed(x, end, ctx)
    ensures ParseExpr(s, i, ctx, 0) == Parsed(Unary(IntType, op, x), end, ctx)
  {
    SkipNone(s, i + 1);
    assert UnaryAt(s, i) == Some(op);
  }

  /** Parentheses around a whole expression leave no node. */
  lemma ParenStep(s: seq<char>, i: nat, ctx: Ctx, e: Expr, q: nat)
    requires CharAt(s, i, '(') && i + 1 < |s| && OperandStart(s[i + 1])
    requires ParseExpr(s, i + 1, ctx, Top) == Parsed(e, q, ctx)
    requires CharAt(s, q, ')') && !StartsWhitespace(s, q + 1)
    ensures ParseExpr(s, i, ctx, 0) == Parsed(e, q + 1, ctx)
  {
    SkipNone(s, i + 1);
    SkipNothing(s, q + 1);
    assert UnaryAt(s, i) == None;
    assert ParseAtom(s, i, ctx) == Parsed(e, q + 1, ctx);
    assert ParseUnary(s, i, ctx) == ParseAtom(s, i, ctx);
  }

  /** The loop of a left-associative level, entered at `j` with `lhs` read
      so far; `Failed` where the loop cannot be entered. */
  function LeftLoop(s: seq<char>, j: nat, ctx: Ctx, level: nat, lhs: Expr): Parsed<Expr, Ctx> {
    if j <= |s| && 1 <= level <= 10 && AllInt(lhs) && (!ctx.errored ==> Resolved(lhs)) && LocalRefs(ctx, lhs)
    then ParseLeftTail(s, j, ctx, level, lhs) else Failed
  }

  /** The loop of a right-associative level, likewise. */
  function RightLoop(s: seq<char>, j: nat, ctx: Ctx, level: nat, lhs: Expr): Parsed<Expr, Ctx> {
    if j <= |s| && 11 <= level <= Top && AllInt(lhs) && (!ctx.errored ==> Resolved(lhs)) && LocalRefs(ctx, lhs)
    then ParseRightTail(s, j, ctx, level, lhs) else Failed
  }

  /** The loop of a left-associative level ends before an operator of
      another level. */
  lemma LeftTailStops(s: seq<char>, j: nat, ctx: Ctx, level: nat, lhs: Expr)
    requires j <= |s| && 1 <= level <= 10
    requires AllInt(lhs) && (!ctx.errored ==> Resolved(lhs)) && LocalRefs(ctx, lhs)
    requires InfixAt(s, j).None? || Level(InfixAt(s, j).value) != level
    ensures LeftLoop(s, j, ctx, level, lhs) == Parsed(lhs, j, ctx)
  {
  }

  /** So does a right-associative level. */
  lemma RightTailStops(s: seq<char>, j: nat, ctx: Ctx, level: nat, lhs: Expr)
    requires j <= |s| && 11 <= level <= Top
    requires AllInt(lhs) && (!ctx.errored ==> Resolved(lhs)) && LocalRefs(ctx, lhs)
    requires InfixAt(s, j).None? || Level(InfixAt(s, j).value) != level
    ensures RightLoop(s, j, ctx, level, lhs) == Parsed(lhs, j, ctx)
  {
  }

  /** A level reads its first operand at the next tighter level, then runs
      its loop from there. */
  lemma LeftLevel(s: seq<char>, i: nat, ctx: Ctx, level: nat, lhs: Expr, j: nat, c: Ctx)
    requires i <= |s| && 1 <= level <= 10
    requires ParseExpr(s, i, ctx, level - 1) == Parsed(lhs, j, c)
    ensures ParseExpr(s, i, ctx, level) == LeftLoop(s, j, c, level, lhs)
  {
  }

  lemma RightLevel(s: seq<char>, i: nat, ctx: Ctx, level: nat, lhs: Expr, j: nat, c: Ctx)
    requires i <= |s| && 11 <= level <= Top
    requires ParseExpr(s, i, ctx, level - 1) == Parsed(lhs, j, c)
    ensures ParseExpr(s, i, ctx, level) == RightLoop(s, j, c, level, lhs)
  {
  }

  /** Before what stops an expression of `level`, that level adds nothing
      to what the next tighter level read. */
  lemma LevelUp(s: seq<char>, i: nat, ctx: Ctx, e: Expr, end: nat, level: nat, c: Ctx)
    requires i <= |s| && 1 <= level <= Top
    requires ParseExpr(s, i, ctx, level - 1) == Parsed(e, end, c)
    requires Stops(s, end, level)
    ensures ParseExpr(s, i, ctx, level) == Parsed(e, end, c)
  {
    if RightAssociative(level) {
      RightLevel(s, i, ctx, level, e, end, c);
      RightTailStops(s, end, c, level, e);
    } else {
      LeftLevel(s, i, ctx, level, e, end, c);
      LeftTailStops(s, end, c, level, e);
    }
  }

  /** Where an expression of `low` ends before what stops one of `level`,
      the levels in between add nothing. */
  lemma {:induction false} Lift(s: seq<char>, i: nat, ctx: Ctx, e: Expr, end: nat, low: nat, level: nat, c: Ctx)
    requires i <= |s| && low <= level <= Top
    requires ParseExpr(s, i, ctx, low) == Parsed(e, end, c)
    requires Stops(s, end, level)
    ensures ParseExpr(s, i, ctx, level) == Parsed(e, end, c)
    decreases level - low
  {
    if low < level {
      Lift(s, i, ctx, e, end, low, level - 1, c);
      LevelUp(s, i, ctx, e, end, level, c);
    }
  }

  /** The node `MakeInfix` builds from an infix node's operator and
      operands is that node. */
  lemma MakeInfixOf(e: Expr)
    requires IsInfix(e) && !e.Conditional? && e.ty == IntType
    ensures MakeInfix(OpOf(e), e.left, e.right) == e
  {
  }

  /** The operator `op` is spelled at `p` and its operand starts at `k`. */
  predicate OpAt(s: seq<char>, p: nat, k: nat, op: InfixOp) {
    InfixAt(s, p) == Some(op) && k == p + |Spelling(op)| && k <= |s| && Skip(s, k) == Some(k)
  }

  /** The `:` of a conditional is spelled at `q` and its operand follows. */
  predicate ColonAt(s: seq<char>, q: nat) {
    CharAt(s, q, ':') && q + 1 <= |s| && Skip(s, q + 1) == Some(q + 1)
  }

  /** An operator of a left-associative level is consumed by its loop. */
  lemma LeftOpStep(s: seq<char>, p: nat, k: nat, ctx: Ctx, level: nat, lhs: Expr, op: InfixOp)
    requires 1 <= level <= 10 && Level(op) == level
    requires AllInt(lhs) && (!ctx.errored ==> Resolved(lhs)) && LocalRefs(ctx, lhs)
    requires OpAt(s, p, k, op)
    ensures LeftLoop(s, p, ctx, level, lhs) == ParseLeftOperand(s, k, ctx, level, lhs, op)
  {
    assert p <= |s| && Skip(s, p + |Spelling(op)|) == Some(k);
    assert ParseLeftTail(s, p, ctx, level, lhs) == ParseLeftOperand(s, k, ctx, level, lhs, op);
  }

  /** One operator of a left-associative level and its right operand. */
  lemma LeftStep(s: seq<char>, p: nat, k: nat, ctx: Ctx, level: nat, lhs: Expr, op: InfixOp, rhs: Expr, end: nat, e: Expr)
    requires 1 <= level <= 10 && Level(op) == level
    requires AllInt(lhs) && (!ctx.errored ==> Resolved(lhs)) && LocalRefs(ctx, lhs)
    requires OpAt(s, p, k, op)
    requires ParseExpr(s, k, ctx, level - 1) == Parsed(rhs, end, ctx)
    requires e == MakeInfix(op, lhs, rhs) && AllInt(e) && (!ctx.errored ==> Resolved(e)) && LocalRefs(ctx, e)
    ensures LeftLoop(s, p, ctx, level, lhs) == LeftLoop(s, end, ctx, level, e)
  {
    LeftOpStep(s, p, k, ctx, level, lhs, op);
    OperandStep(s, k, ctx, level, lhs, op, rhs, end, e);
  }

  /** After the operator, the right operand is read and the loop goes on. */
  lemma OperandStep(s: seq<char>, k: nat, ctx: Ctx, level: nat, lhs: Expr, op: InfixOp, rhs: Expr, end: nat, e: Expr)
    requires k <= |s| && 1 <= level <= 10 && Level(op) == level
    requires AllInt(lhs) && (!ctx.errored ==> Resolved(lhs)) && LocalRefs(ctx, lhs)
    requires ParseExpr(s, k, ctx, level - 1) == Parsed(rhs, end, ctx)
    requires e == MakeInfix(op, lhs, rhs) && AllInt(e) && (!ctx.errored ==> Resolved(e)) && LocalRefs(ctx, e)
    ensures ParseLeftOperand(s, k, ctx, level, lhs, op) == LeftLoop(s, end, ctx, level, e)
  {
  }

  /** An operator of a right-associative level is consumed by its loop. */
  lemma RightOpStep(s: seq<char>, p: nat, k: nat, ctx: Ctx, level: nat, lhs: Expr, op: InfixOp)
    requires 11 <= level <= Top && Level(op) == level
    requires AllInt(lhs) && (!ctx.errored ==> Resolved(lhs)) && LocalRefs(ctx, lhs)
    requires OpAt(s, p, k, op)
    ensures RightLoop(s, p, ctx, level, lhs) == ParseRightOperand(s, k, ctx, level, lhs, op)
  {
  }

  /** A right-associative operator other than `?` and its right operand. */
  lemma RightStep(s: seq<char>, p: nat, k: nat, ctx: Ctx, level: nat, lhs: Expr, op: InfixOp, rhs: Expr, end: nat)
    requires 12 <= level <= Top && Level(op) == level
    requires AllInt(lhs) && (!ctx.errored ==> Resolved(lhs)) && LocalRefs(ctx, lhs)
    requires OpAt(s, p, k, op)
    requires ParseExpr(s, k, ctx, level) == Parsed(rhs, end, ctx)
    ensures RightLoop(s, p, ctx, level, lhs) == Parsed(MakeInfix(op, lhs, rhs), end, ctx)
  {
    RightOpStep(s, p, k, ctx, level, lhs, op);
  }

  /** `?`, a whole expression, `:` and an operand of the conditional level. */
  lemma CondStep(s: seq<char>, p: nat, ctx: Ctx, cond: Expr, mid: Expr, alt: Expr, q: nat, end: nat)
    requires AllInt(cond) && (!ctx.errored ==> Resolved(cond)) && LocalRefs(ctx, cond)
    requires OpAt(s, p, p + 1, Question)
    requires ParseExpr(s, p + 1, ctx, Top) == Parsed(mid, q, ctx)
    requires ColonAt(s, q)
    requires ParseExpr(s, q + 1, ctx, 11) == Parsed(alt, end, ctx)
    ensures RightLoop(s, p, ctx, 11, cond) == Parsed(Conditional(IntType, cond, mid, alt), end, ctx)
  {
    assert Level(Question) == 11;
    RightOpStep(s, p, p + 1, ctx, 11, cond, Question);
    CondRest(s, p + 1, ctx, cond, mid, alt, q, end);
  }

  /** After `?`: the middle, `:` and the last operand. */
  lemma CondRest(s: seq<char>, k: nat, ctx: Ctx, cond: Expr, mid: Expr, alt: Expr, q: nat, end: nat)
    requires k <= |s| && Level(Question) == 11
    requires AllInt(cond) && (!ctx.errored ==> Resolved(cond)) && LocalRefs(ctx, cond)
    requires ParseExpr(s, k, ctx, Top) == Parsed(mid, q, ctx)
    requires ColonAt(s, q)
    requires ParseExpr(s, q + 1, ctx, 11) == Parsed(alt, end, ctx)
    ensures ParseRightOperand(s, k, ctx, 11, cond, Question) == Parsed(Conditional(IntType, cond, mid, alt), end, ctx)
  {
  }

  // ---------------------------------------------------------------------
  // Combining the steps

  /** A left-associative node: once its left operand has been read and
      the loop of its level has reached its operator, the loop goes on after
      its right operand with the node as what was read so far. */
  lemma LeftCombine(s: seq<char>, p: nat, k: nat, end: nat, ctx: Ctx, e: Expr, l: nat)
    requires IsInfix(e) && 1 <= l <= 10 && NodeLevel(e) == l
    requires AllInt(e) && (!ctx.errored ==> Resolved(e)) && LocalRefs(ctx, e)
    requires AllInt(e.left) && (!ctx.errored ==> Resolved(e.left)) && LocalRefs(ctx, e.left)
    requires OpAt(s, p, k, OpOf(e))
    requires ParseExpr(s, k, ctx, l - 1) == Parsed(e.right, end, ctx)
    ensures LeftLoop(s, p, ctx, l, e.left) == LeftLoop(s, end, ctx, l, e)
  {
    MakeInfixOf(e);
    LeftStep(s, p, k, ctx, l, e.left, OpOf(e), e.right, end, e);
  }

  /** A right-associative node other than `?:`, from its two operands. */
  lemma RightCombine(s: seq<char>, i: nat, p: nat, k: nat, end: nat, ctx: Ctx, e: Expr, l: nat)
    requires i <= |s| && IsInfix(e) && 12 <= l <= Top && NodeLevel(e) == l && e.ty == IntType
    requires ParseExpr(s, i, ctx, l - 1) == Parsed(e.left, p, ctx)
    requires OpAt(s, p, k, OpOf(e))
    requires ParseExpr(s, k, ctx, l) == Parsed(e.right, end, ctx)
    ensures ParseExpr(s, i, ctx, l) == Parsed(e, end, ctx)
  {
    RightLevel(s, i, ctx, l, e.left, p, ctx);
    RightStep(s, p, k, ctx, l, e.left, OpOf(e), e.right, end);
    MakeInfixOf(e);
  }

  /** A conditional node, from its three operands. */
  lemma CondCombine(s: seq<char>, i: nat, p: nat, q: nat, end: nat, ctx: Ctx, e: Expr)
    requires i <= |s| && e.Conditional? && e.ty == IntType
    requires ParseExpr(s, i, ctx, 10) == Parsed(e.condition, p, ctx)
    requires OpAt(s, p, p + 1, Question)
    requires ParseExpr(s, p + 1, ctx, Top) == Parsed(e.ifTrue, q, ctx)
    requires ColonAt(s, q)
    requires ParseExpr(s, q + 1, ctx, 11) == Parsed(e.ifFalse, end, ctx)
    ensures ParseExpr(s, i, ctx, 11) == Parsed(e, end, ctx)
  {
    RightLevel(s, i, ctx, 11, e.condition, p, ctx);
    CondStep(s, p, ctx, e.condition, e.ifTrue, e.ifFalse, q, end);
  }

  // ---------------------------------------------------------------------
  // Where the parts of a printed node are

  /** `e`, printed where an expression of `level` is expected, is the text
      from `i` to `end`, and what follows stops an expression of `stop`. */
  predicate Printed(s: seq<char>, i: nat, end: nat, ctx: Ctx, e: Expr, level: nat, stop: nat) {
    Readable(ctx, e) && level <= Top && LitAt(s, i, Show(e, level)) && end == i + |Show(e, level)|
    && Stops(s, end, stop)
  }

  lemma ParenText(s: seq<char>, i: nat, end: nat, ctx: Ctx, e: Expr, level: nat) returns (q: nat)
    requires Printed(s, i, end, ctx, e, level, level) && NodeLevel(e) > level
    ensures CharAt(s, i, '(') && i + 1 < |s| && OperandStart(s[i + 1])
    ensures Printed(s, i + 1, q, ctx, e, Top, Top)
    ensures CharAt(s, q, ')') && !StartsWhitespace(s, q + 1) && q + 1 == end
  {
    ParenShow(e, level);
    var p;
    p, q := SplitAt(s, i, "(", Show(e, Top), ")");
    ShowStartAt(s, p, ctx, e, Top);
    CloserStops(s, q, ')', Top);
    assert s[i] == s[i..i + 1][0];
  }

  /** A node printed where a looser level is expected is parenthesised. */
  lemma ParenShow(e: Expr, level: nat)
    requires NodeLevel(e) > level
    ensures Show(e, level) == "(" + Show(e, Top) + ")"
  {
  }

  lemma UnaryText(s: seq<char>, i: nat, end: nat, ctx: Ctx, e: Expr, level: nat)
    requires Printed(s, i, end, ctx, e, level, level) && e.Unary?
    ensures CharAt(s, i, UnarySpelling(e.uop)) && i + 1 < |s| && OperandStart(s[i + 1])
    ensures Printed(s, i + 1, end, ctx, e.child, 0, 0)
  {
    var u := [UnarySpelling(e.uop)];
    assert Show(e, level) == u + Show(e.child, 0);
    SliceConcat(s, i, u, Show(e.child, 0));
    assert s[i] == s[i..i + 1][0];
    ShowStartAt(s, i + 1, ctx, e.child, 0);
  }

  lemma LeftText(s: seq<char>, i: nat, end: nat, ctx: Ctx, e: Expr, l: nat) returns (p: nat, k: nat)
    requires 1 <= l <= 10 && NodeLevel(e) == l && Printed(s, i, end, ctx, e, l, l - 1)
    ensures Printed(s, i, p, ctx, e.left, l, l - 1)
    ensures OpAt(s, p, k, OpOf(e))
    ensures Printed(s, k, end, ctx, e.right, l - 1, l - 1)
  {
    LeftShow(e, l);
    p, k := SplitAt(s, i, Show(e.left, l), Spelling(OpOf(e)), Show(e.right, l - 1));
    ReadableOperands(ctx, e);
    ShowStartAt(s, k, ctx, e.right, l - 1);
    OperatorRead(s, p, k, OpOf(e));
  }

  lemma RightText(s: seq<char>, i: nat, end: nat, ctx: Ctx, e: Expr, level: nat) returns (p: nat, k: nat)
    requires Printed(s, i, end, ctx, e, level, level) && 12 <= NodeLevel(e) <= level
    ensures Printed(s, i, p, ctx, e.left, NodeLevel(e) - 1, NodeLevel(e) - 1)
    ensures OpAt(s, p, k, OpOf(e))
    ensures Printed(s, k, end, ctx, e.right, NodeLevel(e), NodeLevel(e))
  {
    var l := NodeLevel(e);
    RightShow(e, level);
    p, k := SplitAt(s, i, Show(e.left, l - 1), Spelling(OpOf(e)), Show(e.right, l));
    ReadableOperands(ctx, e);
    ShowStartAt(s, k, ctx, e.right, l);
    OperatorRead(s, p, k, OpOf(e));
  }

  /** A conditional needs no parentheses where a conditional is expected. */
  lemma CondShow(e: Expr, level: nat)
    requires e.Conditional? && 11 <= level
    ensures Show(e, level) == Show(e.condition, 10) + "?" + Show(e.ifTrue, Top) + ":" + Show(e.ifFalse, 11)
  {
  }

  /** A node of a left-associative level, printed at its own level: the
      left operand at the same level, the right one a level tighter. */
  lemma LeftShow(e: Expr, l: nat)
    requires 1 <= l <= 10 && NodeLevel(e) == l
    ensures Show(e, l) == Show(e.left, l) + Spelling(OpOf(e)) + Show(e.right, l - 1)
  {
  }

  /** An `=` or `,` node, printed where it needs no parentheses: the left
      operand a level tighter, the right one at the same level. */
  lemma RightShow(e: Expr, level: nat)
    requires 12 <= NodeLevel(e) <= level
    ensures Show(e, level) == Show(e.left, NodeLevel(e) - 1) + Spelling(OpOf(e)) + Show(e.right, NodeLevel(e))
  {
  }

  /** The five pieces of a printed conditional. */
  lemma CondSplit(s: seq<char>, i: nat, e: Expr, level: nat) returns (p: nat, q: nat)
    requires e.Conditional? && 11 <= level && LitAt(s, i, Show(e, level))
    ensures LitAt(s, i, Show(e.condition, 10)) && p == i + |Show(e.condition, 10)|
    ensures LitAt(s, p, "?") && LitAt(s, p + 1, Show(e.ifTrue, Top)) && q == p + 1 + |Show(e.ifTrue, Top)|
    ensures LitAt(s, q, ":") && LitAt(s, q + 1, Show(e.ifFalse, 11))
    ensures i + |Show(e, level)| == q + 1 + |Show(e.ifFalse, 11)|
  {
    CondShow(e, level);
    p, q := Split5(s, i, Show(e.condition, 10), "?", Show(e.ifTrue, Top), ":", Show(e.ifFalse, 11));
  }

  lemma CondText(s: seq<char>, i: nat, end: nat, ctx: Ctx, e: Expr, level: nat) returns (p: nat, q: nat)
    requires Printed(s, i, end, ctx, e, level, level) && e.Conditional? && 11 <= level
    ensures Printed(s, i, p, ctx, e.condition, 10, 10)
    ensures OpAt(s, p, p + 1, Question)
    ensures Printed(s, p + 1, q, ctx, e.ifTrue, Top, Top)
    ensures ColonAt(s, q)
    ensures Printed(s, q + 1, end, ctx, e.ifFalse, 11, 11)
  {
    p, q := CondSplit(s, i, e, level);
    ReadableBranches(ctx, e);
    QuestionRead(s, p, ctx, e.ifTrue, Top);
    ColonRead(s, q, ctx, e.ifFalse, 11);
  }

  // ---------------------------------------------------------------------
  // The round trip

  /** Every readable tree, printed where an expression of `level` is
      expected and followed by what stops such an expression, is read back
      as the same tree, in the same state, ending right after its text. */
  lemma ParseShowExpr(s: seq<char>, i: nat, ctx: Ctx, e: Expr, level: nat)
    requires Readable(ctx, e) && level <= Top
    requires LitAt(s, i, Show(e, level)) && Stops(s, i + |Show(e, level)|, level)
    ensures ParseExpr(s, i, ctx, level) == Parsed(e, i + |Show(e, level)|, ctx)
  {
    ReadShown(s, i, i + |Show(e, level)|, ctx, e, level);
  }

  lemma {:induction false} ReadShown(s: seq<char>, i: nat, end: nat, ctx: Ctx, e: Expr, level: nat)
    requires Printed(s, i, end, ctx, e, level, level)
    ensures ParseExpr(s, i, ctx, level) == Parsed(e, end, ctx)
    decreases e, 2, Top - level, 2
  {
    var l := NodeLevel(e);
    if l > level {
      ParenRead(s, i, end, ctx, e, level);
    } else if l == 0 {
      AtomRead(s, i, end, ctx, e, level);
    } else if l <= 10 {
      LeftRead(s, i, end, ctx, e, level);
    } else if l == 11 {
      CondRead(s, i, end, ctx, e, level);
    } else {
      RightRead(s, i, end, ctx, e, level);
    }
  }

  /** A node printed in parentheses. */
  lemma {:induction false} ParenRead(s: seq<char>, i: nat, end: nat, ctx: Ctx, e: Expr, level: nat)
    requires Printed(s, i, end, ctx, e, level, level) && NodeLevel(e) > level
    ensures ParseExpr(s, i, ctx, level) == Parsed(e, end, ctx)
    decreases e, 2, Top - level, 1
  {
    ParenAtom(s, i, end, ctx, e, level);
    Lift(s, i, ctx, e, end, 0, level, ctx);
  }

  /** A node printed in parentheses is read as an operand. */
  lemma {:induction false} ParenAtom(s: seq<char>, i: nat, end: nat, ctx: Ctx, e: Expr, level: nat)
    requires Printed(s, i, end, ctx, e, level, level) && NodeLevel(e) > level
    ensures ParseExpr(s, i, ctx, 0) == Parsed(e, end, ctx)
    decreases e, 2, Top - level, 0
  {
    var q := ParenText(s, i, end, ctx, e, level);
    ReadShown(s, i + 1, q, ctx, e, Top);
    ParenStep(s, i, ctx, e, q);
  }

  /** A literal, an identifier or a prefix operator over an operand. */
  lemma {:induction false} AtomRead(s: seq<char>, i: nat, end: nat, ctx: Ctx, e: Expr, level: nat)
    requires Printed(s, i, end, ctx, e, level, level) && NodeLevel(e) == 0
    ensures ParseExpr(s, i, ctx, level) == Parsed(e, end, ctx)
    decreases e, 1, 0, 0
  {
    match e
    case IntegerConstant(_, v) =>
      LiteralStep(s, i, ctx, v);
      Lift(s, i, ctx, e, end, 0, level, ctx);
    case Identifier(_, d) =>
      IdentStep(s, i, ctx, d.value);
      Lift(s, i, ctx, e, end, 0, level, ctx);
    case Unary(_, op, x) =>
      UnaryText(s, i, end, ctx, e, level);
      ReadShown(s, i + 1, end, ctx, x, 0);
      UnaryStep(s, i, ctx, op, x, end);
      Lift(s, i, ctx, e, end, 0, level, ctx);
  }

  /** A node of a left-associative level. */
  lemma {:induction false} LeftRead(s: seq<char>, i: nat, end: nat, ctx: Ctx, e: Expr, level: nat)
    requires Printed(s, i, end, ctx, e, level, level) && 1 <= NodeLevel(e) <= 10 && NodeLevel(e) <= level
    ensures ParseExpr(s, i, ctx, level) == Parsed(e, end, ctx)
    decreases e, 1, 1, 0
  {
    var l := NodeLevel(e);
    ShowSame(e, level);
    ShowSame(e, l);
    ReadableFacts(ctx, e);
    LeftChain(s, i, end, ctx, e, l);
    LeftTailStops(s, end, ctx, l, e);
    Lift(s, i, ctx, e, end, l, level, ctx);
  }

  /** A chain of operators of one left-associative level is read as a tree
      that nests to the left: what remains after the tree is read is the
      loop of that level. */
  lemma {:induction false} LeftChain(s: seq<char>, i: nat, end: nat, ctx: Ctx, e: Expr, l: nat)
    requires 1 <= l <= 10 && NodeLevel(e) == l && Printed(s, i, end, ctx, e, l, l - 1)
    requires AllInt(e) && Resolved(e) && LocalRefs(ctx, e)
    ensures ParseExpr(s, i, ctx, l) == LeftLoop(s, end, ctx, l, e)
    decreases e, 1, 0, 1
  {
    var p, k := LeftParts(s, i, end, ctx, e, l);
    LeftOperand(s, i, p, ctx, e, l);
    LeftCombine(s, p, k, end, ctx, e, l);
  }

  /** The operator of a printed left-associative node and its right
      operand, read on its own. */
  lemma {:induction false} LeftParts(s: seq<char>, i: nat, end: nat, ctx: Ctx, e: Expr, l: nat)
    returns (p: nat, k: nat)
    requires 1 <= l <= 10 && NodeLevel(e) == l && Printed(s, i, end, ctx, e, l, l - 1)
    ensures Printed(s, i, p, ctx, e.left, l, l - 1)
    ensures OpAt(s, p, k, OpOf(e))
    ensures ParseExpr(s, k, ctx, l - 1) == Parsed(e.right, end, ctx)
    decreases e, 0, 0, 0
  {
    p, k := LeftText(s, i, end, ctx, e, l);
    ReadShown(s, k, end, ctx, e.right, l - 1);
  }

  /** The left operand of a left-associative node, read up to the node's
      operator. */
  lemma {:induction false} LeftOperand(s: seq<char>, i: nat, p: nat, ctx: Ctx, e: Expr, l: nat)
    requires 1 <= l <= 10 && NodeLevel(e) == l && Printed(s, i, p, ctx, e.left, l, l - 1)
    ensures AllInt(e.left) && Resolved(e.left) && LocalRefs(ctx, e.left)
    ensures ParseExpr(s, i, ctx, l) == LeftLoop(s, p, ctx, l, e.left)
    decreases e, 1, 0, 0
  {
    var lhs := e.left;
    ReadableFacts(ctx, lhs);
    if NodeLevel(lhs) == l {
      LeftChain(s, i, p, ctx, lhs, l);
    } else {
      ShowBelow(lhs, l);
      ReadShown(s, i, p, ctx, lhs, l - 1);
      LeftLevel(s, i, ctx, l, lhs, p, ctx);
    }
  }

  /** `=` and `,` are read as trees that nest to the right. */
  lemma {:induction false} RightRead(s: seq<char>, i: nat, end: nat, ctx: Ctx, e: Expr, level: nat)
    requires Printed(s, i, end, ctx, e, level, level) && 12 <= NodeLevel(e) <= level
    ensures ParseExpr(s, i, ctx, level) == Parsed(e, end, ctx)
    decreases e, 1, 0, 1
  {
    var l := NodeLevel(e);
    var p, k := RightOperands(s, i, end, ctx, e, level);
    ReadableFacts(ctx, e);
    RightCombine(s, i, p, k, end, ctx, e, l);
    Lift(s, i, ctx, e, end, l, level, ctx);
  }

  /** The two operands of a printed `=` or `,` node, each read on its own. */
  lemma {:induction false} RightOperands(s: seq<char>, i: nat, end: nat, ctx: Ctx, e: Expr, level: nat)
    returns (p: nat, k: nat)
    requires Printed(s, i, end, ctx, e, level, level) && 12 <= NodeLevel(e) <= level
    ensures ParseExpr(s, i, ctx, NodeLevel(e) - 1) == Parsed(e.left, p, ctx)
    ensures OpAt(s, p, k, OpOf(e))
    ensures ParseExpr(s, k, ctx, NodeLevel(e)) == Parsed(e.right, end, ctx)
    decreases e, 1, 0, 0
  {
    var l := NodeLevel(e);
    p, k := RightText(s, i, end, ctx, e, level);
    ReadShown(s, i, p, ctx, e.left, l - 1);
    ReadShown(s, k, end, ctx, e.right, l);
  }

  /** `c ? t : f` is read as a conditional node. */
  lemma {:induction false} CondRead(s: seq<char>, i: nat, end: nat, ctx: Ctx, e: Expr, level: nat)
    requires Printed(s, i, end, ctx, e, level, level) && e.Conditional? && 11 <= level
    ensures ParseExpr(s, i, ctx, level) == Parsed(e, end, ctx)
    decreases e, 1, 0, 1
  {
    var p, q := CondOperands(s, i, end, ctx, e, level);
    ReadableFacts(ctx, e);
    CondCombine(s, i, p, q, end, ctx, e);
    Lift(s, i, ctx, e, end, 11, level, ctx);
  }

  /** The three operands of a printed conditional, each read on its own. */
  lemma {:induction false} CondOperands(s: seq<char>, i: nat, end: nat, ctx: Ctx, e: Expr, level: nat)
    returns (p: nat, q: nat)
    requires Printed(s, i, end, ctx, e, level, level) && e.Conditional? && 11 <= level
    ensures ParseExpr(s, i, ctx, 10) == Parsed(e.condition, p, ctx)
    ensures OpAt(s, p, p + 1, Question)
    ensures ParseExpr(s, p + 1, ctx, Top) == Parsed(e.ifTrue, q, ctx)
    ensures ColonAt(s, q)
    ensures ParseExpr(s, q + 1, ctx, 11) == Parsed(e.ifFalse, end, ctx)
    decreases e, 1, 0, 0
  {
    p, q := CondText(s, i, end, ctx, e, level);
    ReadShown(s, i, p, ctx, e.condition, 10);
    CondBranches(s, p + 1, q, end, ctx, e);
  }

  /** The two branches of a printed conditional. */
  lemma {:induction false} CondBranches(s: seq<char>, k: nat, q: nat, end: nat, ctx: Ctx, e: Expr)
    requires e.Conditional?
    requires Printed(s, k, q, ctx, e.ifTrue, Top, Top) && Printed(s, q + 1, end, ctx, e.ifFalse, 11, 11)
    ensures ParseExpr(s, k, ctx, Top) == Parsed(e.ifTrue, q, ctx)
    ensures ParseExpr(s, q + 1, ctx, 11) == Parsed(e.ifFalse, end, ctx)
    decreases e, 0, 0, 0
  {
    ReadShown(s, k, q, ctx, e.ifTrue, Top);
    ReadShown(s, q + 1, end, ctx, e.ifFalse, 11);
  }

  // ---------------------------------------------------------------------
  // Examples

  /** The literal node for `v`, as the parser builds it. */
  function Num(v: nat): Expr { IntegerConstant(IntType, v) }

  /** Every small literal node is readable. */
  lemma NumReadable(ctx: Ctx, v: nat)
    requires v <= MaxU64
    ensures Defects(ctx, Num(v)) == 0
  {
  }

  /** A readable tree printed in front of `;` is read back whole. */
  lemma ReadBeforeSemicolon(ctx: Ctx, s: seq<char>, i: nat, e: Expr)
    requires Readable(ctx, e) && LitAt(s, i, Show(e, Top)) && CharAt(s, i + |Show(e, Top)|, ';')
    ensures ParseExpr(s, i, ctx, Top) == Parsed(e, i + |Show(e, Top)|, ctx)
  {
    SemicolonStops(s, i + |Show(e, Top)|, Top);
    ParseShowExpr(s, i, ctx, e, Top);
  }

  /** A `;` stops every expression. */
  lemma SemicolonStops(s: seq<char>, n: nat, level: nat)
    requires CharAt(s, n, ';')
    ensures Stops(s, n, level)
  {
  }

  /** An unbound name in front of `;` is a whole expression: an identifier
      without a declaration, with the unknown identifier reported. */
  lemma UnboundIdentifier(s: seq<char>, i: nat, ctx: Ctx, n: string)
    requires IsName(n) && n !in ctx.locals && LitAt(s, i, n) && CharAt(s, i + |n|, ';')
    ensures ParseExpr(s, i, ctx, Top)
         == Parsed(Identifier(IntType, None), i + |n|,
                   ctx.(errored := true, diagnostics := ctx.diagnostics + [UnknownIdentifier(n)]))
  {
    var c := ctx.(errored := true, diagnostics := ctx.diagnostics + [UnknownIdentifier(n)]);
    SemicolonStops(s, i + |n|, 0);
    SemicolonStops(s, i + |n|, Top);
    UnboundStep(s, i, ctx, n);
    Lift(s, i, ctx, Identifier(IntType, None), i + |n|, 0, Top, c);
  }

  /** `*` binds tighter than `+`: `1+2*3` is `1+(2*3)`. */
  lemma PrecedenceExample(ctx: Ctx)
    ensures ParseExpr("1+2*3;", 0, ctx, Top)
      == Parsed(Binary(IntType, Add, Num(1), Binary(IntType, Mul, Num(2), Num(3))), 5, ctx)
  {
    var e := Binary(IntType, Add, Num(1), Binary(IntType, Mul, Num(2), Num(3)));
    NumReadable(ctx, 1);
    NumReadable(ctx, 2);
    NumReadable(ctx, 3);
    assert Show(e, Top) == "1+2*3";
    ReadBeforeSemicolon(ctx, "1+2*3;", 0, e);
  }

  /** `-` is left-associative: `5-2-1` is `(5-2)-1`. */
  lemma LeftAssociativeExample(ctx: Ctx)
    ensures ParseExpr("5-2-1;", 0, ctx, Top)
      == Parsed(Binary(IntType, Sub, Binary(IntType, Sub, Num(5), Num(2)), Num(1)), 5, ctx)
  {
    var e := Binary(IntType, Sub, Binary(IntType, Sub, Num(5), Num(2)), Num(1));
    NumReadable(ctx, 1);
    NumReadable(ctx, 2);
    NumReadable(ctx, 5);
    assert Show(e, Top) == "5-2-1";
    ReadBeforeSemicolon(ctx, "5-2-1;", 0, e);
  }

  /** Parentheses override precedence: `(1+2)*3`. */
  lemma ParenthesesExample(ctx: Ctx)
    ensures ParseExpr("(1+2)*3;", 0, ctx, Top)
      == Parsed(Binary(IntType, Mul, Binary(IntType, Add, Num(1), Num(2)), Num(3)), 7, ctx)
  {
    var e := Binary(IntType, Mul, Binary(IntType, Add, Num(1), Num(2)), Num(3));
    NumReadable(ctx, 1);
    NumReadable(ctx, 2);
    NumReadable(ctx, 3);
    assert Show(e, Top) == "(1+2)*3";
    ReadBeforeSemicolon(ctx, "(1+2)*3;", 0, e);
  }

  /** `||` builds a sequenced node over its operands: `1||2/0`. */
  lemma SequencedExample(ctx: Ctx)
    ensures ParseExpr("1||2/0;", 0, ctx, Top)
      == Parsed(SequencedBinary(IntType, LOr, Num(1), Binary(IntType, Div, Num(2), Num(0))), 6, ctx)
  {
    var e := SequencedBinary(IntType, LOr, Num(1), Binary(IntType, Div, Num(2), Num(0)));
    NumReadable(ctx, 0);
    NumReadable(ctx, 1);
    NumReadable(ctx, 2);
    assert Show(e, Top) == "1||2/0";
    ReadBeforeSemicolon(ctx, "1||2/0;", 0, e);
  }

  /** `,` is right-associative and loosest: `1,2?3:4,5`. */
  lemma CommaExample(ctx: Ctx)
    ensures ParseExpr("1,2?3:4,5;", 0, ctx, Top)
      == Parsed(SequencedBinary(IntType, Comma, Num(1),
                  SequencedBinary(IntType, Comma, Conditional(IntType, Num(2), Num(3), Num(4)), Num(5))), 9, ctx)
  {
    var e := SequencedBinary(IntType, Comma, Num(1),
      SequencedBinary(IntType, Comma, Conditional(IntType, Num(2), Num(3), Num(4)), Num(5)));
    CommaText(ctx, e);
    ReadBeforeSemicolon(ctx, "1,2?3:4,5;", 0, e);
  }

  lemma CommaText(ctx: Ctx, e: Expr)
    requires e == SequencedBinary(IntType, Comma, Num(1),
      SequencedBinary(IntType, Comma, Conditional(IntType, Num(2), Num(3), Num(4)), Num(5)))
    ensures Readable(ctx, e) && Show(e, Top) == "1,2?3:4,5"
  {
    var r := e.right;
    var c := r.left;
    assert Readable(ctx, e) by {
      NumReadable(ctx, 1);
      NumReadable(ctx, 2);
      NumReadable(ctx, 3);
      NumReadable(ctx, 4);
      NumReadable(ctx, 5);
      assert Defects(ctx, c) == 0;
    }
    assert Show(c, Top - 1) == "2?3:4";
    assert Show(r, Top) == "2?3:4,5";
  }
}
