/** The expression grammar: atoms, prefix operators and thirteen levels of
    infix operators, each callback building a node of type `int`.

    Levels, tightest first: 0 prefix `+ - ~ !` over an atom; 1 `* / %`;
    2 `+ -`; 3 `<< >>`; 4 `< <= > >=`; 5 `== !=`; 6 `&`; 7 `^`; 8 `|`;
    9 `&&`; 10 `||` (levels 1 to 10 left-associative); 11 `?:`; 12 `=`;
    13 `,` (right-associative). */
module Expressions {
  import opened Syntax
  import opened Lexical
  import opened Scope

  /** The loosest level: a whole expression. */
  const Top: nat := 13

  /** The level at which an infix operator binds. */
  function Level(op: InfixOp): (l: nat)
    ensures 1 <= l <= Top
  {
    match op
    case Bin(Mul) => 1
    case Bin(Div) => 1
    case Bin(Rem) => 1
    case Bin(Add) => 2
    case Bin(Sub) => 2
    case Bin(Shl) => 3
    case Bin(Shr) => 3
    case Bin(Lt) => 4
    case Bin(Le) => 4
    case Bin(Gt) => 4
    case Bin(Ge) => 4
    case Bin(Eq) => 5
    case Bin(Ne) => 5
    case Bin(BAnd) => 6
    case Bin(BXor) => 7
    case Bin(BOr) => 8
    case Seq(LAnd) => 9
    case Seq(LOr) => 10
    case Question => 11
    case Assign => 12
    case Seq(Comma) => 13
  }

  /** Levels 11 to 13 are right-associative, the others left-associative. */
  predicate RightAssociative(level: nat) { level >= 11 }

  /** The node an infix operator builds: `&&`, `||` and `,` a sequenced
      binary node, `=` an assignment, every other operator a binary node. */
  function MakeInfix(op: InfixOp, left: Expr, right: Expr): (e: Expr)
    requires op != Question
    ensures e.ty == IntType
    ensures e.Binary? <==> op.Bin?
    ensures e.SequencedBinary? <==> op.Seq?
    ensures e.Assignment? <==> op == Assign
    ensures e.Binary? ==> e.bop == op.bop
    ensures e.SequencedBinary? ==> e.sop == op.sop
    ensures e.Assignment? ==> e.aop == AssignNone
    ensures e.left == left && e.right == right
  {
    match op
    case Bin(b) => Binary(IntType, b, left, right)
    case Seq(q) => SequencedBinary(IntType, q, left, right)
    case Assign => Assignment(IntType, AssignNone, left, right)
  }

  /** What every expression parsing step guarantees: it never aborts; on
      success it moved forward (strictly, when it read an operand), it only
      extended the state and left the local table alone, every node it built
      is typed `int`, and while `errored` is unset every identifier it built
      refers to a declaration. */
  predicate ExprStep(s: seq<char>, i: nat, ctx: Ctx, r: Parsed<Expr, Ctx>, strict: bool) {
    !r.Aborted? &&
    (r.Parsed? ==>
      && (if strict then i < r.pos else i <= r.pos) && r.pos <= |s|
      && Extends(ctx, r.state)
      && r.state.locals == ctx.locals && r.state.declCount == ctx.declCount
      && (Consistent(ctx) ==> Consistent(r.state))
      && AllInt(r.value)
      && (!r.state.errored ==> Resolved(r.value))
      && LocalRefs(ctx, r.value))
  }

  /** An expression refers only to declarations bound in the local table. */
  predicate LocalRefs(ctx: Ctx, e: Expr) {
    ExprIds(e) <= LocalIds(ctx)
  }

  /** An expression at `level`: an operand of the next tighter level,
      then the operators of this level. */
  function ParseExpr(s: seq<char>, i: nat, ctx: Ctx, level: nat): (r: Parsed<Expr, Ctx>)
    requires i <= |s| && level <= Top
    ensures ExprStep(s, i, ctx, r, true)
    decreases |s| - i, level, 2
  {
    if level == 0 then ParseUnary(s, i, ctx)
    else
      match ParseExpr(s, i, ctx, level - 1)
      case Parsed(lhs, j, c) =>
        if RightAssociative(level) then ParseRightTail(s, j, c, level, lhs)
        else ParseLeftTail(s, j, c, level, lhs)
      case Failed => Failed
      case Aborted(m) => Aborted(m)
  }

  /** The prefix operators, right to left, over an atom. */
  function ParseUnary(s: seq<char>, i: nat, ctx: Ctx): (r: Parsed<Expr, Ctx>)
    requires i <= |s|
    ensures ExprStep(s, i, ctx, r, true)
    decreases |s| - i, 0, 1
  {
    match UnaryAt(s, i)
    case Some(op) =>
      (match Skip(s, i + 1)
       case Some(k) =>
         (match ParseUnary(s, k, ctx)
          case Parsed(e, m, c) => Parsed(Unary(IntType, op, e), m, c)
          case Failed => Failed
          case Aborted(msg) => Aborted(msg))
       case None => Failed)
    case None => ParseAtom(s, i, ctx)
  }

  /** An atom: a parenthesized expression (which leaves no node of its
      own), an identifier looked up in the local table, or otherwise an
      integer literal. */
  function ParseAtom(s: seq<char>, i: nat, ctx: Ctx): (r: Parsed<Expr, Ctx>)
    requires i <= |s|
    ensures ExprStep(s, i, ctx, r, true)
    decreases |s| - i, 0, 0
  {
    if CharAt(s, i, '(') then
      match Skip(s, i + 1)
      case Some(k) =>
        (match ParseExpr(s, k, ctx, Top)
         case Parsed(e, m, c) =>
           if CharAt(s, m, ')') then
             match Skip(s, m + 1)
             case Some(p) => Parsed(e, p, c)
             case None => Failed
           else Failed
         case Failed => Failed
         case Aborted(msg) => Aborted(msg))
      case None => Failed
    else if i < |s| && IsIdentStart(s[i]) then
      match ParseName(s, i)
      case NameOk(n, k) =>
        var (e, c) := LookupIdentifier(ctx, n);
        Parsed(e, k, c)
      case _ => Failed
    else
      match IntegerLiteral(s, i)
      case Some(Literal(v, j)) =>
        (match Skip(s, j)
         case Some(k) => Parsed(IntegerConstant(IntType, v), k, ctx)
         case None => Failed)
      case None => Failed
  }

  /** The loop of a left-associative level: while the next operator belongs
      to this level, read an operand of the next tighter level and combine
      it with what was read so far. */
  function ParseLeftTail(s: seq<char>, j: nat, ctx: Ctx, level: nat, lhs: Expr): (r: Parsed<Expr, Ctx>)
    requires j <= |s| && 1 <= level <= 10
    requires AllInt(lhs) && (!ctx.errored ==> Resolved(lhs)) && LocalRefs(ctx, lhs)
    ensures ExprStep(s, j, ctx, r, false)
    decreases |s| - j, level, 2
  {
    match InfixAt(s, j)
    case Some(op) =>
      if Level(op) == level then
        match Skip(s, j + |Spelling(op)|)
        case Some(k) => ParseLeftOperand(s, k, ctx, level, lhs, op)
        case None => Failed
      else Parsed(lhs, j, ctx)
    case None => Parsed(lhs, j, ctx)
  }

  /** The loop of a left-associative level after an operator `op` of that
      level and the whitespace after it: the right operand, one level
      tighter, then the loop again with the node built so far. */
  function ParseLeftOperand(s: seq<char>, k: nat, ctx: Ctx, level: nat, lhs: Expr, op: InfixOp): (r: Parsed<Expr, Ctx>)
    requires k <= |s| && 1 <= level <= 10 && Level(op) == level
    requires AllInt(lhs) && (!ctx.errored ==> Resolved(lhs)) && LocalRefs(ctx, lhs)
    ensures ExprStep(s, k, ctx, r, false)
    decreases |s| - k + 1, level, 1
  {
    match ParseExpr(s, k, ctx, level - 1)
    case Parsed(rhs, m, c) => ParseLeftTail(s, m, c, level, MakeInfix(op, lhs, rhs))
    case Failed => Failed
    case Aborted(msg) => Aborted(msg)
  }

  /** A right-associative level: if the next operator belongs to this level,
      the right operand is a whole expression of this same level. For `?`
      the middle operand is a whole expression, closed by `:`. */
  function ParseRightTail(s: seq<char>, j: nat, ctx: Ctx, level: nat, lhs: Expr): (r: Parsed<Expr, Ctx>)
    requires j <= |s| && 11 <= level <= Top
    requires AllInt(lhs) && (!ctx.errored ==> Resolved(lhs)) && LocalRefs(ctx, lhs)
    ensures ExprStep(s, j, ctx, r, false)
    decreases |s| - j, level, 2
  {
    match InfixAt(s, j)
    case Some(op) =>
      if Level(op) == level then
        match Skip(s, j + |Spelling(op)|)
        case Some(k) => ParseRightOperand(s, k, ctx, level, lhs, op)
        case None => Failed
      else Parsed(lhs, j, ctx)
    case None => Parsed(lhs, j, ctx)
  }

  /** The loop of a right-associative level after an operator `op` of that
      level and the whitespace after it. For `?`: a whole expression, `:`,
      and an operand of the conditional level; otherwise an operand of this
      same level. */
  function ParseRightOperand(s: seq<char>, k: nat, ctx: Ctx, level: nat, lhs: Expr, op: InfixOp): (r: Parsed<Expr, Ctx>)
    requires k <= |s| && 11 <= level <= Top && Level(op) == level
    requires AllInt(lhs) && (!ctx.errored ==> Resolved(lhs)) && LocalRefs(ctx, lhs)
    ensures ExprStep(s, k, ctx, r, false)
    decreases |s| - k + 1, level, 1
  {
    if op == Question then
      match ParseExpr(s, k, ctx, Top)
      case Parsed(mid, m, c) =>
        if CharAt(s, m, ':') then
          match Skip(s, m + 1)
          case Some(p) =>
            (match ParseExpr(s, p, c, level)
             case Parsed(alt, q, c') => Parsed(Conditional(IntType, lhs, mid, alt), q, c')
             case Failed => Failed
             case Aborted(msg) => Aborted(msg))
          case None => Failed
        else Failed
      case Failed => Failed
      case Aborted(msg) => Aborted(msg)
    else
      match ParseExpr(s, k, ctx, level)
      case Parsed(rhs, m, c) => Parsed(MakeInfix(op, lhs, rhs), m, c)
      case Failed => Failed
      case Aborted(msg) => Aborted(msg)
  }
}
