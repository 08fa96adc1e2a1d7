# clauf front end, modelled in Dafny

This project models the front end of clauf, a compiler for a small subset of
C. The front end is `clauf::compile` in `src/compiler.cpp`. It is a lexy
grammar whose value callbacks build the AST and update a `compiler_state`:
the flat table of local symbols, the sticky `errored` flag and the
diagnostic writer.

The grammar is modelled as pure functions over the input characters
(`seq<char>`). Each parsing function returns `Parsed(value, position,
state)`, `Failed` (the grammar did not match) or `Aborted(reason)` (one of
the source's `CLAUF_TODO` stops). The parser state is a value, `Scope.Ctx`,
threaded through the parse. The callbacks that change `compiler_state` in
place are also modelled as methods of the class `State.CompilerState`. Each
of those methods is proved to make exactly the transition of the pure
function it corresponds to.

Modules, one per file:

- `Syntax` (`ast.dfy`): types, expression and statement nodes, function
  definitions, the declarator tree, diagnostics, and the outcome of a parse
  step.
- `Lexical` (`lexical.dfy`): whitespace and comments, identifiers and
  reserved keywords, integer literals in four bases with `'` separators,
  and operator spellings.
- `Scope` (`scope.dfy`): the parser state; identifier lookup;
  `insert_or_shadow` and the duplicate-declaration check; `function_start`.
- `Declarators` (`declarators.dfy`): declarator parsing, and the
  resolution of declarators into variables or into a function definition.
- `Expressions` (`expressions.dfy`): the thirteen precedence levels of the
  expression grammar.
- `Statements` (`statements.dfy`): statements, function definitions, the
  translation unit and `compile`.
- `State` (`state.dfy`): `compiler_state` as a class with the stateful
  callbacks as methods.
- `ExprPrinter` (`printer.dfy`): a printer for expression trees that uses
  the fewest parentheses the precedence levels allow. The expression grammar
  is proved to read every printed tree back as the same tree.
- `StmtPrinter` (`stmtprinter.dfy`): a printer for statements, function
  definitions and translation units. The statement grammar is proved to
  read every printed program back as the same tree, in the state its
  declarations leave.

The main results are these:

- `compile` yields an AST exactly when the input parsed and no semantic
  error was reported. Every AST it yields has at least one function. Every
  node in it is typed `int`. Every identifier in it refers to a
  declaration. No function refers to another function's locals, because
  the local table is emptied at the start of each function.
- A declaration statement read by `stmt` declares one fresh `int`
  variable per declarator. It sets `errored` exactly when the state was
  already errored or one of its names is already bound, before it or
  earlier in the same statement, and it reports exactly those duplicates,
  in order. For example, `int x,x;` declares two variables named `x` and
  reports `x` once.
- An unbound name does not stop the parse. It is read as an identifier
  without a declaration, `errored` is set and the unknown identifier is
  reported.
- Integer literals of every base read back as the value they were written
  from.
- Declarators and declarator lists read back as the trees they were
  printed from.
- Expressions read back as the trees they were printed from. This fixes
  which tree the parser builds: how tightly each operator binds, which way
  each level associates, and which node each operator makes. For example,
  `1+2*3` is `1+(2*3)`, `5-2-1` is `(5-2)-1`, and in `1||2/0` the
  logical or is a sequenced node over `1` and `2/0`.
- Statements, blocks, function definitions and whole translation units
  read back as the trees they were printed from. This fixes the AST
  `compile` returns: a block holds the statements read, in order; a
  builtin or expression statement holds the expression read; a function
  definition holds its name and body; the unit holds every definition, in
  order. For example, `int main(){__clauf_assert 1+2*3==7;}` compiles to one
  function holding one assert over `(1+(2*3))==7`, and in
  `int f(){int x;x;}` the second statement refers to the variable the
  first one declared.
- The operator at a position is the longest spelling that occurs there.

## Model

| member | source | states |
|---|---|---|
| Lexical.LineCommentEnd | src/compiler.cpp:452-454 | a line comment that matches ends after at least one character of its body and within the input |
| Lexical.LineCommentEndFirst | src/compiler.cpp:452-454 | a line comment ends just after the first newline; with no newline before the end of the input it does not match |
| Lexical.BlockCommentEnd | src/compiler.cpp:452-454 | a block comment that matches ends after its closing `*/`, within the input |
| Lexical.BlockCommentEndFirst | src/compiler.cpp:452-454 | a block comment ends just after the first `*/`; an unterminated one does not match |
| Lexical.Skip | src/compiler.cpp:450-454 | whitespace skipping stops within the input, at a position where no space and no comment starts |
| Lexical.SkipSound | src/compiler.cpp:450-454 | everything skipped is a sequence of spaces, line comments and block comments; skipping fails only after such a sequence that ends at an unterminated comment |
| Lexical.SkipComplete | src/compiler.cpp:450-454 | after any sequence of spaces and comments, skipping stops exactly where no more whitespace starts, and fails when an unterminated comment starts there |
| Lexical.IdentEnd | src/compiler.cpp:80-81 | an identifier is the longest run of identifier characters |
| Lexical.ParseName | src/compiler.cpp:90-100 | `name` reads the whole identifier; the result is a valid name equal to the characters read; it is rejected exactly when the spelling is `int`, `__clauf_print` or `__clauf_assert` |
| Lexical.DigitRunEnd | src/compiler.cpp:119-120 | a digit run stops before a character that is neither a digit nor a `'`, and everything it covers is a digit or a `'` followed by a digit |
| Lexical.DigitRunEndFails | src/compiler.cpp:119-120 | a digit run fails only at a `'` with no digit after it, reached through digits and separators |
| Lexical.DigitRunEndComplete | src/compiler.cpp:119-120 | digits and separators followed by a character that cannot continue them form exactly the digit run; followed by a dangling `'` they make it fail |
| Lexical.ValueOf | src/compiler.cpp:119-121 | the value of `n` digits in a base is less than the base to the power `n` |
| Lexical.Digits | src/compiler.cpp:119-120 | a literal has at least one digit; its value is the value of the digits read, and it fits in 64 bits |
| Lexical.IntegerLiteral | src/compiler.cpp:117-131 | a literal ends after at least one character and its value fits in 64 bits |
| Lexical.ValueOfUntick | src/compiler.cpp:119-120 | `'` separators do not contribute to a literal's value |
| Lexical.ValueOfLeadingZero | src/compiler.cpp:123-131 | the `0` that makes a literal octal does not change its value |
| Lexical.ValueOfToDigits | src/compiler.cpp:117-131 | the digits of a number in a base, read back, give the number |
| Lexical.IntegerLiteralRoundTrip | src/compiler.cpp:117-131 | a number written as a hexadecimal (`0x`), binary (`0b`), octal (leading `0`) or decimal literal reads back as the same number, ending right after the literal |
| Lexical.PrefixedRoundTrip | src/compiler.cpp:125-128 | a number written in hexadecimal after `0x`, or in binary after `0b`, reads back as the same number |
| Lexical.PrefixedLiteralRead | src/compiler.cpp:125-128 | digits after `0x` or `0X` are read in hexadecimal, and digits after `0b` or `0B` in binary, as their value |
| Lexical.UpperHexExample | src/compiler.cpp:125 | `0XfF` reads as 255 |
| Lexical.UpperBinaryExample | src/compiler.cpp:126 | `0B101` reads as 5 |
| Lexical.OctalRoundTrip | src/compiler.cpp:123-131 | a number written in octal after a `0`, and the literal `0` itself, read back as the same number |
| Lexical.OctalText | src/compiler.cpp:123-131 | an octal literal is a `0` followed by octal digits whose value is the number written |
| Lexical.HexExample | src/compiler.cpp:125-128 | `0x1F` reads as 31 |
| Lexical.BinaryExample | src/compiler.cpp:126-128 | `0b101` reads as 5 |
| Lexical.OctalExample | src/compiler.cpp:124-130 | `017` reads as 15, in octal |
| Lexical.SeparatorExamples | src/compiler.cpp:119-120 | `1'000` reads as 1000; `1'` followed by `;` is rejected |
| Lexical.TrailingSeparator | src/compiler.cpp:119-120 | a `'` with no digit after it makes the literal fail |
| Lexical.Spelling | src/compiler.cpp:180-263 | every infix operator is spelled with one or two characters |
| Lexical.SpellingInjective | src/compiler.cpp:180-263 | no two infix operators have the same spelling |
| Lexical.InfixAt | src/compiler.cpp:180-265 | the operator found at a position is spelled there |
| Lexical.InfixAtLongestMatch | src/compiler.cpp:180-265 | the operator found is exactly the one whose spelling occurs at the position with no longer spelling occurring there |
| Lexical.InfixAtFinds | src/compiler.cpp:180-265 | wherever an operator is spelled, an operator is found there, and it is at least as long |
| Lexical.RelationalGuard | src/compiler.cpp:202-209 | `<` is less-than exactly when neither `<` nor `=` follows it; the same holds for `>` |
| Lexical.UnaryAt | src/compiler.cpp:171-178 | a prefix operator is found exactly at `+`, `-`, `~` or `!`, and it is the operator spelled there |
| Scope.LookupIdentifier | src/compiler.cpp:140-162 | a bound name yields its declaration and leaves the state alone; an unbound one yields an identifier without declaration, reports an unknown identifier and sets `errored` |
| Scope.InsertOrShadow | src/compiler.cpp:311 | the table afterwards binds the old names plus the new one, the new one to the declaration; it returns the replaced binding exactly when the name was bound |
| Scope.Declare | src/compiler.cpp:311-323 | inserting one declaration binds its name to it and keeps every other binding; `errored` is set and a duplicate is reported exactly when the name was already bound; nothing is allocated |
| Scope.DeclareAll | src/compiler.cpp:306-326 | inserting the declarations of a statement only extends the state and keeps `errored` in step with the diagnostics; every binding is an old binding or one of the statement's declarations |
| Scope.DeclareAllKeys | src/compiler.cpp:308-312 | after a declaration statement the table binds exactly the old names and the declared ones |
| Scope.DeclareAllBindings | src/compiler.cpp:308-312 | each declared name is bound to its last declaration in the statement; undeclared names keep their binding |
| Scope.LastBinding | src/compiler.cpp:308-312 | a declaration that no later declaration of the statement shadows is what its name is bound to afterwards |
| Scope.KeptBinding | src/compiler.cpp:308-312 | a bound name that the statement does not declare keeps its binding |
| Scope.DeclareAllErrored | src/compiler.cpp:308-324 | a declaration statement sets `errored` exactly when one of its names was already bound, before it or earlier in the statement |
| Scope.DuplicateReports | src/compiler.cpp:312-322 | the duplicates reported by a declaration statement: at most one per declaration, each a `DuplicateLocal` naming a declared name |
| Scope.DeclareAllReports | src/compiler.cpp:312-322 | a declaration statement appends exactly its duplicates, in order, to the diagnostics: at most one per declaration, each naming a declared name |
| Scope.DeclareAllSilent | src/compiler.cpp:312-322 | a declaration statement reports nothing exactly when none of its declarations is a duplicate |
| Scope.LocalIdsFrom | src/compiler.cpp:421-424 | when the table holds only declarations made since it was emptied, so does anything that refers only to the table |
| Scope.FunctionStart | src/compiler.cpp:421-424 | `function_start` empties the local table and changes nothing else |
| Expressions.Level | src/compiler.cpp:180-265 | every infix operator binds at one of levels 1 to 13 |
| Expressions.MakeInfix | src/compiler.cpp:267-293 | every infix node built is typed `int` and holds the two operands in order; a binary operator makes a `binary_expr`, the logical and, the logical or and the comma make a `sequenced_binary_expr`, and `=` makes an `assignment_expr` with no compound operator |
| Expressions.ParseExpr | src/compiler.cpp:165-297 | an expression never aborts; on success it moved forward, left the local table and the allocation count alone, only appended diagnostics, built only `int` nodes, referred only to bound declarations, and left none unresolved unless `errored` is set |
| Expressions.ParseUnary | src/compiler.cpp:171-178 | the same guarantees for prefix operators over an atom |
| Expressions.ParseAtom | src/compiler.cpp:167-169 | the same guarantees for a parenthesized expression, an identifier or an integer literal |
| ExprPrinter.UnboundStep | src/compiler.cpp:140-162 | a valid name that is not bound, where an operand is expected and followed by what ends it, is read as an identifier without declaration; the state is errored and has the unknown identifier appended to its diagnostics |
| ExprPrinter.UnboundIdentifier | src/compiler.cpp:140-162 | an unbound valid name followed by `;` is read as a whole expression: an identifier without declaration, ending right after the name, with `errored` set and the unknown identifier reported; the parse goes on |
| Expressions.ParseLeftTail | src/compiler.cpp:180-244 | the same guarantees for the operator loop of a left-associative level |
| Expressions.ParseLeftOperand | src/compiler.cpp:180-244 | the same guarantees for the right operand of a left-associative operator and the rest of its level |
| Expressions.ParseRightTail | src/compiler.cpp:246-263 | the same guarantees for a right-associative level and for `? :` |
| Expressions.ParseRightOperand | src/compiler.cpp:246-263 | the same guarantees for the operands after a right-associative operator or after `?` |
| ExprPrinter.ParseShowExpr | src/compiler.cpp:165-293 | a tree without defects, printed where an expression of a level is expected and followed by what ends that level, reads back as the same tree, right after the text, with the state unchanged |
| ExprPrinter.ReadBeforeSemicolon | src/compiler.cpp:165-293 | a printed tree followed by `;` reads back as the same tree |
| ExprPrinter.PrecedenceExample | src/compiler.cpp:180-193 | `1+2*3` is read as `1+(2*3)` |
| ExprPrinter.LeftAssociativeExample | src/compiler.cpp:188-193 | `5-2-1` is read as `(5-2)-1` |
| ExprPrinter.ParenthesesExample | src/compiler.cpp:167-169 | `(1+2)*3` is read as the product of the sum and 3 |
| ExprPrinter.SequencedExample | src/compiler.cpp:240-244 | the logical or of `1` and `2/0` is read as a sequenced node whose right operand is the division |
| ExprPrinter.CommaExample | src/compiler.cpp:246-263 | `1,2?3:4,5` is read as `1,((2?3:4),5)`: the comma associates to the right and binds more loosely than `?:` |
| Declarators.ParseDeclarator | src/compiler.cpp:359-379 | a declarator that parses consumes at least one character |
| Declarators.FunctionSuffixes | src/compiler.cpp:363-367 | the `()` suffixes never move backwards |
| Declarators.ParseDeclaratorList | src/compiler.cpp:381-385 | a declarator list holds at least one declarator, and its first one is the declarator read at the start |
| Declarators.DeclaratorListTail | src/compiler.cpp:383 | the declarators after a `,` extend those read so far |
| Declarators.ResolveOne | src/compiler.cpp:396-413 | a declarator resolves exactly when it is a name, to one `int` variable of that name; a function declarator stops with the `CLAUF_TODO` for a function declaration, anything deeper with the one for a function returning a function |
| Declarators.ResolveDeclarators | src/compiler.cpp:391-416 | a resolved declaration yields one variable per declarator |
| Declarators.ResolveDeclaratorsNames | src/compiler.cpp:391-416 | resolution succeeds exactly when every declarator is a name, and then yields fresh `int` variables with consecutive identities, in order |
| Declarators.ResolveDeclaratorsFirstUnsupported | src/compiler.cpp:400-414 | resolution stops at the first declarator that is not a name, with the `CLAUF_TODO` for its shape |
| Declarators.ResolveFunction | src/compiler.cpp:429-444 | a definition is built exactly for the shape function(name); it has that name, the body, and type function returning `int` |
| Declarators.FunctionSuffixesRead | src/compiler.cpp:363-367 | `k` suffixes `()` followed by what ends them wrap the declarator read so far in `k` function declarators |
| Declarators.NameRead | src/compiler.cpp:360-373 | a valid name followed by what cannot continue it is read as that name, and the declarator goes on with its suffixes |
| Declarators.ParseWrapped | src/compiler.cpp:359-379 | a name followed by `k` suffixes `()` is read as the name wrapped in `k` function declarators |
| Declarators.ParseShowDeclarator | src/compiler.cpp:359-379 | a declarator printed with a valid name reads back as the same declarator |
| Declarators.DeclaratorListTailRead | src/compiler.cpp:383 | declarators printed each after a `,` are appended, in order, to those read so far |
| Declarators.ParseShowDeclaratorList | src/compiler.cpp:381-385 | a list of declarators with valid names, printed separated by `,`, reads back as the same list |
| Statements.ParseStmt | src/compiler.cpp:348-353 | a statement is a block when it starts with `{`, otherwise a builtin statement after a builtin keyword, otherwise a declaration statement after `int`, otherwise an expression statement; it moves forward, only extends the state, and stays within the declarations of the current function |
| Statements.ParseBuiltin | src/compiler.cpp:335-339 | a builtin statement records its keyword and never aborts; the expression it holds is pinned by `StmtPrinter.BuiltinRead` |
| Statements.ParseExprStmt | src/compiler.cpp:329-333 | an expression statement never aborts; the expression it holds is pinned by `StmtPrinter.ExprStmtRead` |
| Statements.ExprLocal | src/compiler.cpp:140-162 | an expression that refers only to the local table refers only to declarations made since the table was emptied |
| Statements.Semicolon | src/compiler.cpp:331 | a semicolon is consumed when one is present |
| Statements.ParseDeclStmt | src/compiler.cpp:303-327 | a declaration statement that does not fail is `int`, the whitespace after it, a declarator list and a `;`, and its outcome is exactly what the declaration callbacks make of the declarators read |
| Statements.DeclareDeclarators | src/compiler.cpp:387-416 | when every declarator resolves, the statement holds exactly the resolved variables and the state is theirs allocated and then inserted in order; otherwise the parse stops with the resolution's `CLAUF_TODO`; the table and the statement stay within the current function |
| Statements.DeclareDeclaratorsEffect | src/compiler.cpp:303-327 | the callbacks stop exactly when some declarator is not a name; otherwise one `int` variable per declarator with consecutive identities, the table binds the old names plus the declared ones, `errored` is set exactly when it was or some variable is a duplicate, and exactly the duplicates are reported, in order |
| Statements.IntStmtIsDecl | src/compiler.cpp:348-353 | a statement starting with `int` is read as a declaration statement |
| Statements.DeclStmtEffect | src/compiler.cpp:303-327 | a declaration statement read by `stmt` sets `errored` exactly when the state was errored or one of its variables is a duplicate, reports exactly those duplicates, and binds every declared name |
| Statements.DeclareFresh | src/compiler.cpp:306-326 | inserting fresh variables allocates exactly one declaration per variable and keeps the table within the current function |
| Statements.BlockLocal | src/compiler.cpp:341-346 | a block of statements that stay within the current function stays within it too |
| Statements.ParseBlock | src/compiler.cpp:341-346 | a block parses to statements that carry the guarantees of every statement; which statements is pinned by `StmtPrinter.ParseShowBlock` |
| Statements.ParseStmtList | src/compiler.cpp:343 | the statements of a block extend those read so far and keep their guarantees; that they are exactly the statements read, in order, is pinned by `StmtPrinter.ParseShowStmts` |
| Statements.AppendStmt | src/compiler.cpp:343 | one more statement keeps a statement list within the current function |
| Statements.ParseFunctionDefinition | src/compiler.cpp:419-447 | a function definition has type function returning `int`, only `int` nodes, no unresolved identifier unless `errored` is set, and mentions only declarations allocated while it was parsed; its name and body are pinned by `StmtPrinter.FunctionRead` |
| Statements.ParseFunctions | src/compiler.cpp:456 | function definitions are read until the end of the input; at least one is appended, and the list stays well formed; that it holds every definition, in order, is pinned by `StmtPrinter.ParseShowFunctions` |
| Statements.AppendFunction | src/compiler.cpp:456 | a function whose declarations were all allocated after those before it keeps the functions separated |
| Statements.ParseTranslationUnit | src/compiler.cpp:450-459 | a translation unit consumes the whole input, has at least one function, keeps `errored` in step with the diagnostics, and its functions are separated; which functions is pinned by `StmtPrinter.TranslationUnitRead` |
| Statements.Compile | src/compiler.cpp:462-472 | `compile` yields the parsed functions exactly when the parse matched with no semantic error, and stops exactly when the parse did; what it yields is non-empty, all `int`, fully resolved and separated |
| StmtPrinter.ExprStmtRead | src/compiler.cpp:329-333 | a readable expression printed before `;`, not starting with a keyword, is read as the expression statement holding that expression, right after the `;`, with the state unchanged |
| StmtPrinter.ExprStmtDispatch | src/compiler.cpp:348-353 | a statement that starts with neither `{` nor a keyword is read as an expression statement |
| StmtPrinter.BuiltinRead | src/compiler.cpp:335-339 | a keyword, one space, a readable expression and `;` are read as the builtin statement of that keyword holding that expression |
| StmtPrinter.BuiltinDispatch | src/compiler.cpp:348-353 | a statement starting with `__clauf_print` or `__clauf_assert` is read as that builtin statement |
| StmtPrinter.DeclStmtRead | src/compiler.cpp:303-327 | `int`, one space, valid names separated by `,` and `;` are read as a declaration statement of fresh `int` variables with those names, in order, in the state that allocates and inserts them |
| StmtPrinter.FreshDeclared | src/compiler.cpp:391-416 | declarators naming fresh variables resolve to exactly those variables, which are then inserted |
| StmtPrinter.ParseShowStmt | src/compiler.cpp:348-353 | a readable statement, printed, is read back as the same statement, right after its text, in the state it leaves |
| StmtPrinter.ParseShowBlock | src/compiler.cpp:341-346 | a block of readable statements, printed in braces, is read back as exactly those statements, in order |
| StmtPrinter.ParseShowStmts | src/compiler.cpp:343 | readable statements printed before `}` are appended, in order, to those read so far, and the list ends right after the `}` |
| StmtPrinter.FunctionRead | src/compiler.cpp:419-447 | `int`, a name with `()` and a block of readable statements are read back as the definition of that name, type function returning `int`, holding exactly that body; its body starts with an empty table |
| StmtPrinter.ParseShowFunctions | src/compiler.cpp:456 | readable definitions printed up to the end of the input are appended, in order, to those read so far |
| StmtPrinter.TranslationUnitRead | src/compiler.cpp:450-459 | a printed translation unit of readable definitions is read back as exactly those definitions |
| StmtPrinter.CompileShow | src/compiler.cpp:462-472 | `compile` of a printed translation unit of readable definitions returns exactly those definitions when reading them leaves `errored` unset, and nothing otherwise |
| StmtPrinter.DuplicateDeclExample | src/compiler.cpp:303-327 | `int x,x;` declares variables 0 and 1, both named `x`; `x` is bound to the second, `errored` is set and one duplicate of `x` is reported |
| StmtPrinter.AssertProgramExample | src/compiler.cpp:462-472 | `int main(){__clauf_assert 1+2*3==7;}` compiles to one function `main` holding one assert over `(1+(2*3))==7` |
| StmtPrinter.ScopeProgramExample | src/compiler.cpp:462-472 | `int f(){int x;x;}` compiles, and the identifier in the second statement refers to the variable the first one declared |
| State.CompilerState.constructor | src/compiler.cpp:49-58 | a new state has an empty table and is not errored |
| State.CompilerState.IdentifierExpr | src/compiler.cpp:144-162 | the callback of `identifier_expr` makes exactly the lookup transition |
| State.CompilerState.InsertOrShadow | src/compiler.cpp:311 | `insert_or_shadow` updates the table as the pure function does and changes nothing else |
| State.CompilerState.DeclStmt | src/compiler.cpp:306-326 | the callback of `decl_stmt` makes exactly the transition of inserting every declaration in order |
| State.CompilerState.Declaration | src/compiler.cpp:391-416 | the callback of `declaration` returns exactly the resolution of the declarators and allocates one declaration per variable |
| State.CompilerState.FunctionStart | src/compiler.cpp:421-424 | `function_start` makes exactly the pure transition |

## Left out

- Diagnostics keep only their kind and the name. The message text, source
  positions and the fancy visualisation are left out.
- Interning of symbols (`ast.symbols.intern`) is left out. Names are
  compared as strings.
- Arena allocation is left out. A declaration's identity in the arena is
  modelled as a counter, `declCount`. Allocation of type nodes is not
  modelled.
- lexy's syntax-error reporting and error recovery are left out. In the
  model any syntax error fails the whole parse. The source instead reports
  the error and recovers: a block's statements are an `opt_list`
  (src/compiler.cpp:343), and the function definitions are read with
  `terminator(eof).list` (src/compiler.cpp:456). After recovery the source
  may still reach a later `CLAUF_TODO` and abort, for example at
  src/compiler.cpp:441. The model stops at the first syntax error instead.
  In both, `compile` returns no AST after a syntax error.
- lexy's limits on recursion depth and on operator nesting are not
  modelled. The model reads expressions of any depth.
- Identifiers are ASCII only. Unicode XID start and continue characters are
  not modelled.
- `CLAUF_TODO` stops are modelled as an `Aborted` outcome carrying the
  message. The process abort itself is not modelled.
- Operator recognition is modelled as the longest match over all infix
  spellings, with the `<`/`>` guard of the `relational` level. lexy's
  internal matching of operators across levels is not modelled beyond that.
- The `?` of the conditional operator is treated as an operator of level
  11. Its middle operand is a whole expression closed by `:`.
- `dsl::integer<std::uint64_t>` is modelled as rejecting literals of 2^64
  and more. There is no wrap-around.
- Statements.ParseBuiltin, Statements.ParseExprStmt, Statements.ParseBlock,
  Statements.ParseStmtList, Statements.ParseFunctionDefinition,
  Statements.ParseFunctions, Statements.ParseTranslationUnit: their own
  contracts state invariants, not the tree. The tree is stated by the
  `StmtPrinter` round trips instead. Those cover programs in the printer's
  layout: one space after `int` and after a builtin keyword, no other
  whitespace, no comments, and no expression statement that starts with a
  keyword.
- The program behind `compile` (code generation, the interpreter,
  `main`) is not part of this model.
