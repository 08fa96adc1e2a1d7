/** Declarators: the transient tree built while a declaration or a function
    definition is parsed, and its resolution into variable declarations or
    into one function definition. */
module Declarators {
  import opened Syntax
  import opened Lexical

  datatype DeclaratorResult = DeclaratorOk(d: Declarator, pos: nat) | DeclaratorFailed

  /** `declarator`: an atom (a name, or a parenthesized declarator, which
      leaves no node of its own) followed by any number of `()` suffixes,
      each wrapping what precedes it in a function declarator. */
  function ParseDeclarator(s: seq<char>, i: nat): (r: DeclaratorResult)
    requires i <= |s|
    ensures r.DeclaratorOk? ==> i < r.pos <= |s|
    decreases |s| - i, 1
  {
    var atom :=
      if i < |s| && IsIdentStart(s[i]) then
        match ParseName(s, i)
        case NameOk(n, k) => DeclaratorOk(NameDeclarator(n), k)
        case _ => DeclaratorFailed
      else if CharAt(s, i, '(') then
        match Skip(s, i + 1)
        case Some(k) =>
          (match ParseDeclarator(s, k)
           case DeclaratorOk(d, m) =>
             if CharAt(s, m, ')') then
               match Skip(s, m + 1)
               case Some(p) => DeclaratorOk(d, p)
               case None => DeclaratorFailed
             else DeclaratorFailed
           case DeclaratorFailed => DeclaratorFailed)
        case None => DeclaratorFailed
      else DeclaratorFailed;
    match atom
    case DeclaratorOk(d, j) => FunctionSuffixes(s, j, d)
    case DeclaratorFailed => DeclaratorFailed
  }

  /** The postfix `(` `)` operator, left-associative: once `(` is seen, the
      `)` must follow. */
  function FunctionSuffixes(s: seq<char>, j: nat, d: Declarator): (r: DeclaratorResult)
    requires j <= |s|
    ensures r.DeclaratorOk? ==> j <= r.pos <= |s|
    decreases |s| - j, 0
  {
    if CharAt(s, j, '(') then
      match Skip(s, j + 1)
      case Some(k) =>
        if CharAt(s, k, ')') then
          match Skip(s, k + 1)
          case Some(p) => FunctionSuffixes(s, p, FunctionDeclarator(d))
          case None => DeclaratorFailed
        else DeclaratorFailed
      case None => DeclaratorFailed
    else DeclaratorOk(d, j)
  }

  datatype DeclaratorListResult = ListOk(ds: seq<Declarator>, pos: nat) | ListFailed

  /** `declarator_list`: one or more declarators separated by commas. */
  function ParseDeclaratorList(s: seq<char>, i: nat): (r: DeclaratorListResult)
    requires i <= |s|
    ensures r.ListOk? ==> i < r.pos <= |s| && |r.ds| > 0
    ensures r.ListOk? ==> ParseDeclarator(s, i).DeclaratorOk? && r.ds[0] == ParseDeclarator(s, i).d
  {
    match ParseDeclarator(s, i)
    case DeclaratorOk(d, j) => DeclaratorListTail(s, j, [d])
    case DeclaratorFailed => ListFailed
  }

  function DeclaratorListTail(s: seq<char>, j: nat, acc: seq<Declarator>): (r: DeclaratorListResult)
    requires j <= |s|
    ensures r.ListOk? ==> j <= r.pos <= |s| && |r.ds| >= |acc| && r.ds[..|acc|] == acc
    decreases |s| - j
  {
    if CharAt(s, j, ',') then
      match Skip(s, j + 1)
      case Some(k) =>
        (match ParseDeclarator(s, k)
         case DeclaratorOk(d, m) => DeclaratorListTail(s, m, acc + [d])
         case DeclaratorFailed => ListFailed)
      case None => ListFailed
    else ListOk(acc, j)
  }

  // ---------------------------------------------------------------------
  // Resolution

  /** The outcome of resolving the declarators of a declaration: variable
      declarations, or one of the unsupported shapes on which the source
      stops with a `CLAUF_TODO`. */
  datatype Resolution = Resolved(decls: seq<VariableDecl>) | Unsupported(reason: string)

  const TodoFunctionDeclaration: string := "create function declaration"
  const TodoFunctionReturningFunction: string := "generate error: function cannot return function"
  const TodoNotFunctionDefinition: string := "generator error: not a function definition"

  /** What one declarator of a declaration becomes: a name declarator a
      fresh `int` variable; a function declarator is unsupported. */
  function ResolveOne(id: nat, d: Declarator): (r: Resolution)
    ensures r.Resolved? <==> d.NameDeclarator?
    ensures r.Resolved? ==> r.decls == [VariableDecl(id, d.name, IntType)]
    ensures r.Unsupported? && d.child.NameDeclarator? ==> r.reason == TodoFunctionDeclaration
    ensures r.Unsupported? && !d.child.NameDeclarator? ==> r.reason == TodoFunctionReturningFunction
  {
    match d
    case NameDeclarator(n) => Resolved([VariableDecl(id, n, IntType)])
    case FunctionDeclarator(NameDeclarator(_)) => Unsupported(TodoFunctionDeclaration)
    case FunctionDeclarator(_) => Unsupported(TodoFunctionReturningFunction)
  }

  /** The value callback of `declaration`: the declarators are visited in
      order, each name becoming a new variable declaration; the first
      declarator of another shape stops everything. Declarations are
      allocated with consecutive identities from `first`. */
  function ResolveDeclarators(first: nat, ds: seq<Declarator>): (r: Resolution)
    ensures r.Resolved? ==> |r.decls| == |ds|
    decreases |ds|
  {
    if ds == [] then Resolved([])
    else
      match ResolveDeclarators(first, ds[..|ds| - 1])
      case Unsupported(m) => Unsupported(m)
      case Resolved(vs) =>
        match ResolveOne(first + |vs|, ds[|ds| - 1])
        case Resolved(v) => Resolved(vs + v)
        case Unsupported(m) => Unsupported(m)
  }

  /** Resolution succeeds exactly when every declarator is a name, and then
      yields one fresh `int` variable per declarator, in order. */
  lemma {:induction false} ResolveDeclaratorsNames(first: nat, ds: seq<Declarator>)
    ensures ResolveDeclarators(first, ds).Resolved?
        <==> forall k :: 0 <= k < |ds| ==> ds[k].NameDeclarator?
    ensures ResolveDeclarators(first, ds).Resolved? ==>
      forall k :: 0 <= k < |ds| ==>
        ResolveDeclarators(first, ds).decls[k] == VariableDecl(first + k, ds[k].name, IntType)
    decreases |ds|
  {
    if ds != [] {
      var init := ds[..|ds| - 1];
      ResolveDeclaratorsNames(first, init);
      assert forall k :: 0 <= k < |init| ==> init[k] == ds[k];
    }
  }

  /** When resolution fails, the reason is the one for the FIRST declarator
      that is not a name: a function declaration without a body, or a
      function returning a function. */
  lemma {:induction false} ResolveDeclaratorsFirstUnsupported(first: nat, ds: seq<Declarator>, k: nat)
    requires k < |ds| && !ds[k].NameDeclarator?
    requires forall m :: 0 <= m < k ==> ds[m].NameDeclarator?
    ensures ResolveDeclarators(first, ds)
         == Unsupported(if ds[k].child.NameDeclarator? then TodoFunctionDeclaration
                        else TodoFunctionReturningFunction)
    decreases |ds|
  {
    var init := ds[..|ds| - 1];
    if k < |ds| - 1 {
      assert forall m :: 0 <= m < k ==> init[m] == ds[m];
      ResolveDeclaratorsFirstUnsupported(first, init, k);
    } else {
      assert forall m :: 0 <= m < |init| ==> init[m].NameDeclarator? by {
        forall m | 0 <= m < |init| ensures init[m].NameDeclarator? { assert init[m] == ds[m]; }
      }
      ResolveDeclaratorsNames(first, init);
    }
  }

  /** The value callback of `function_definition`: a definition exists only
      for the declarator shape function(name); any other shape stops with a
      `CLAUF_TODO`. */
  function ResolveFunction(d: Declarator, body: seq<Stmt>): (r: Option<FunctionDecl>)
    ensures r.Some? <==> d.FunctionDeclarator? && d.child.NameDeclarator?
    ensures r.Some? ==>
      r.value.name == d.child.name && r.value.body == body && r.value.ty == FunctionType(IntType)
  {
    match d
    case FunctionDeclarator(NameDeclarator(n)) => Some(FunctionDecl(n, FunctionType(IntType), body))
    case _ => None
  }

  // ---------------------------------------------------------------------
  // Printing declarators back

  /** The spelling of a declarator without whitespace: its name followed by
      one `()` per function declarator around it. */
  function ShowDeclarator(d: Declarator): string {
    match d
    case NameDeclarator(n) => n
    case FunctionDeclarator(c) => ShowDeclarator(c) + "()"
  }

  /** The name at the heart of a declarator. */
  function Core(d: Declarator): string {
    match d
    case NameDeclarator(n) => n
    case FunctionDeclarator(c) => Core(c)
  }

  /** `d` wrapped in `k` function declarators. */
  function Wrap(k: nat, d: Declarator): Declarator {
    if k == 0 then d else FunctionDeclarator(Wrap(k - 1, d))
  }

  function Parens(k: nat): (t: string)
    ensures |t| == 2 * k
  {
    if k == 0 then "" else "()" + Parens(k - 1)
  }

  lemma {:induction false} ShowDeclaratorShape(d: Declarator)
    ensures exists k: nat :: d == Wrap(k, NameDeclarator(Core(d)))
                          && ShowDeclarator(d) == Core(d) + Parens(k)
  {
    match d
    case NameDeclarator(n) =>
      assert d == Wrap(0, NameDeclarator(n)) && ShowDeclarator(d) == Core(d) + Parens(0);
    case FunctionDeclarator(c) =>
      ShowDeclaratorShape(c);
      var k: nat :| c == Wrap(k, NameDeclarator(Core(c))) && ShowDeclarator(c) == Core(c) + Parens(k);
      ParensSnoc(k);
      assert d == Wrap(k + 1, NameDeclarator(Core(d)));
  }

  lemma {:induction false} ParensSnoc(k: nat)
    ensures Parens(k) + "()" == "()" + Parens(k) == Parens(k + 1)
  {
    if k > 0 { ParensSnoc(k - 1); }
  }

  /** What may follow a declarator: the end of the input, or a character
      that starts neither whitespace nor another suffix `()`. */
  predicate EndsSuffixes(s: seq<char>, e: nat) {
    e == |s| || (e < |s| && !IsSpace(s[e]) && s[e] != '/' && s[e] != '(')
  }

  /** `k` suffixes `()` at `j`, character by character. */
  predicate ParensAt(s: seq<char>, j: nat, k: nat)
    decreases k
  {
    k == 0 || (PairAt(s, j, '(', ')') && ParensAt(s, j + 2, k - 1))
  }

  /** The printed suffixes `()` are suffixes character by character. */
  lemma {:induction false} ParensAtSlice(s: seq<char>, j: nat, k: nat)
    requires j + 2 * k <= |s| && s[j..j + 2 * k] == Parens(k)
    ensures ParensAt(s, j, k)
    ensures k > 0 ==> s[j] == '('
    decreases k
  {
    if k > 0 {
      assert s[j..j + 2 * k][..2] == s[j..j + 2] == "()";
      assert s[j..j + 2 * k][2..] == s[j + 2..j + 2 * k];
      assert s[j..j + 2][0] == s[j] && s[j..j + 2][1] == s[j + 1];
      ParensAtSlice(s, j + 2, k - 1);
    }
  }

  /** Reading `k` suffixes `()` wraps the declarator read so far `k` times. */
  lemma {:induction false} FunctionSuffixesRead(s: seq<char>, j: nat, d: Declarator, k: nat)
    requires ParensAt(s, j, k) && EndsSuffixes(s, j + 2 * k)
    ensures FunctionSuffixes(s, j, d) == DeclaratorOk(Wrap(k, d), j + 2 * k)
    decreases k
  {
    if k == 0 {
      NoSuffix(s, j, d);
    } else {
      FirstSuffix(s, j, d, k);
      FunctionSuffixesRead(s, j + 2, FunctionDeclarator(d), k - 1);
      WrapOutside(k - 1, d);
    }
  }

  /** Where no suffix follows, the declarator read so far is the result. */
  lemma NoSuffix(s: seq<char>, j: nat, d: Declarator)
    requires EndsSuffixes(s, j)
    ensures FunctionSuffixes(s, j, d) == DeclaratorOk(d, j)
  {
  }

  /** The first of `k` suffixes `()` wraps the declarator once: after it
      comes another suffix or what ends them, so nothing is skipped. */
  lemma FirstSuffix(s: seq<char>, j: nat, d: Declarator, k: nat)
    requires 0 < k && ParensAt(s, j, k) && EndsSuffixes(s, j + 2 * k)
    ensures FunctionSuffixes(s, j, d) == FunctionSuffixes(s, j + 2, FunctionDeclarator(d))
  {
    SkipNone(s, j + 2);
    FunctionSuffixStep(s, j, d);
  }

  /** One suffix `()` with nothing to skip around it. */
  lemma FunctionSuffixStep(s: seq<char>, j: nat, d: Declarator)
    requires PairAt(s, j, '(', ')') && !StartsWhitespace(s, j + 2)
    ensures FunctionSuffixes(s, j, d) == FunctionSuffixes(s, j + 2, FunctionDeclarator(d))
  {
    SkipNone(s, j + 1);
    SkipNothing(s, j + 2);
  }

  lemma {:induction false} WrapOutside(k: nat, d: Declarator)
    ensures Wrap(k, FunctionDeclarator(d)) == Wrap(k + 1, d)
  {
    if k > 0 { WrapOutside(k - 1, d); }
  }

  /** Printing a declarator with a valid name and reading it back gives the
      same declarator, whatever follows that cannot continue it. */
  lemma ParseShowDeclarator(s: seq<char>, i: nat, d: Declarator)
    requires IsName(Core(d))
    requires i + |ShowDeclarator(d)| <= |s| && s[i..i + |ShowDeclarator(d)|] == ShowDeclarator(d)
    requires var e := i + |ShowDeclarator(d)|;
      e == |s| || (!IsIdentContinue(s[e]) && !IsSpace(s[e]) && s[e] != '(' && s[e] != '/')
    ensures ParseDeclarator(s, i) == DeclaratorOk(d, i + |ShowDeclarator(d)|)
  {
    ShowDeclaratorShape(d);
    var k: nat :| d == Wrap(k, NameDeclarator(Core(d))) && ShowDeclarator(d) == Core(d) + Parens(k);
    ParseWrapped(s, i, Core(d), k);
  }

  /** A name followed by `k` suffixes `()` is read as the name wrapped in
      `k` function declarators. */
  lemma ParseWrapped(s: seq<char>, i: nat, n: string, k: nat)
    requires IsName(n)
    requires i + |n| + 2 * k <= |s| && s[i..i + |n| + 2 * k] == n + Parens(k)
    requires var e := i + |n| + 2 * k;
      e == |s| || (!IsIdentContinue(s[e]) && !IsSpace(s[e]) && s[e] != '(' && s[e] != '/')
    ensures ParseDeclarator(s, i) == DeclaratorOk(Wrap(k, NameDeclarator(n)), i + |n| + 2 * k)
  {
    var j := i + |n|;
    var e := j + 2 * k;
    SliceConcat(s, i, n, Parens(k));
    ParensAtSlice(s, j, k);
    NameRead(s, i, n);
    FunctionSuffixesRead(s, j, NameDeclarator(n), k);
  }

  /** A valid name followed by what cannot continue it is read as that
      name, and as a name declarator. */
  lemma NameRead(s: seq<char>, i: nat, n: string)
    requires IsName(n) && i + |n| <= |s| && s[i..i + |n|] == n
    requires var j := i + |n|;
      j == |s| || (!IsIdentContinue(s[j]) && !IsSpace(s[j]) && s[j] != '/')
    ensures ParseName(s, i) == NameOk(n, i + |n|)
    ensures ParseDeclarator(s, i) == FunctionSuffixes(s, i + |n|, NameDeclarator(n))
  {
    SkipNone(s, i + |n|);
    NameAt(s, i, n);
  }

  /** Declarators printed one after the other, each after a `,`. */
  function ShowDeclaratorTail(ds: seq<Declarator>): string {
    if ds == [] then "" else "," + ShowDeclarator(ds[0]) + ShowDeclaratorTail(ds[1..])
  }

  /** A declarator list printed with `,` between the declarators. */
  function ShowDeclaratorList(ds: seq<Declarator>): string
    requires |ds| > 0
  {
    ShowDeclarator(ds[0]) + ShowDeclaratorTail(ds[1..])
  }

  /** What may follow a declarator list: the end of the input, or a
      character that continues neither a declarator nor the list. */
  predicate EndsList(s: seq<char>, e: nat) {
    e == |s| || (e < |s| && !IsIdentContinue(s[e]) && !IsSpace(s[e]) && s[e] != '(' && s[e] != '/' && s[e] != ',')
  }

  /** Every declarator has a valid name at its heart. */
  predicate NamedDeclarators(ds: seq<Declarator>) {
    forall m :: 0 <= m < |ds| ==> IsName(Core(ds[m]))
  }

  /** A printed declarator starts with the first letter of its name. */
  lemma {:induction false} ShowDeclaratorStart(d: Declarator)
    requires IsName(Core(d))
    ensures |ShowDeclarator(d)| > 0 && ShowDeclarator(d)[0] == Core(d)[0]
  {
    match d
    case NameDeclarator(_) =>
    case FunctionDeclarator(c) =>
      ShowDeclaratorStart(c);
  }

  /** Printed declarators, each after a `,`, are read back in order after
      those read so far. */
  lemma {:induction false} DeclaratorListTailRead(s: seq<char>, j: nat, acc: seq<Declarator>, ds: seq<Declarator>)
    requires NamedDeclarators(ds)
    requires LitAt(s, j, ShowDeclaratorTail(ds)) && EndsList(s, j + |ShowDeclaratorTail(ds)|)
    ensures DeclaratorListTail(s, j, acc) == ListOk(acc + ds, j + |ShowDeclaratorTail(ds)|)
    decreases |ds|
  {
    if ds == [] {
      assert acc + ds == acc;
    } else {
      var m := TailItem(s, j, ds);
      ListTailStep(s, j, acc, ds[0], m);
      DeclaratorListTailRead(s, m, acc + [ds[0]], ds[1..]);
      assert acc + [ds[0]] + ds[1..] == acc + ds;
    }
  }

  /** The first `,` and declarator of printed declarators, and what
      follows them. */
  lemma TailItem(s: seq<char>, j: nat, ds: seq<Declarator>) returns (m: nat)
    requires ds != [] && NamedDeclarators(ds)
    requires LitAt(s, j, ShowDeclaratorTail(ds)) && EndsList(s, j + |ShowDeclaratorTail(ds)|)
    ensures CharAt(s, j, ',') && j + 1 <= |s| && Skip(s, j + 1) == Some(j + 1)
    ensures ParseDeclarator(s, j + 1) == DeclaratorOk(ds[0], m)
    ensures NamedDeclarators(ds[1..]) && LitAt(s, m, ShowDeclaratorTail(ds[1..]))
    ensures m + |ShowDeclaratorTail(ds[1..])| == j + |ShowDeclaratorTail(ds)|
  {
    var t := ShowDeclaratorList(ds);
    assert ShowDeclaratorTail(ds) == "," + t;
    assert CharAt(s, j, ',') && LitAt(s, j + 1, t) by {
      SliceConcat(s, j, ",", t);
      assert s[j] == s[j..j + 1][0];
    }
    assert !IsSpace(s[j + 1]) && s[j + 1] != '/' by {
      ShowDeclaratorStart(ds[0]);
      assert s[j + 1] == t[0] by { assert s[j + 1..j + 1 + |t|][0] == s[j + 1]; }
    }
    SkipNone(s, j + 1);
    m := DeclaratorRead(s, j + 1, ds);
  }

  /** The first declarator of printed declarators is read back, and the
      rest of them follow it. */
  lemma DeclaratorRead(s: seq<char>, k: nat, ds: seq<Declarator>) returns (m: nat)
    requires ds != [] && NamedDeclarators(ds)
    requires LitAt(s, k, ShowDeclaratorList(ds)) && EndsList(s, k + |ShowDeclaratorList(ds)|)
    ensures ParseDeclarator(s, k) == DeclaratorOk(ds[0], m)
    ensures NamedDeclarators(ds[1..]) && LitAt(s, m, ShowDeclaratorTail(ds[1..]))
    ensures m + |ShowDeclaratorTail(ds[1..])| == k + |ShowDeclaratorList(ds)|
  {
    var t := ShowDeclarator(ds[0]);
    var rest := ShowDeclaratorTail(ds[1..]);
    m := k + |t|;
    assert m + |rest| == k + |ShowDeclaratorList(ds)|;
    assert LitAt(s, k, t) && LitAt(s, m, rest) by { SliceConcat(s, k, t, rest); }
    assert m == |s| || (!IsIdentContinue(s[m]) && !IsSpace(s[m]) && s[m] != '(' && s[m] != '/') by {
      if rest != [] {
        assert s[m] == ',' by { assert s[m..m + |rest|][0] == s[m]; }
      }
    }
    assert NamedDeclarators(ds[1..]) by {
      assert forall x :: 0 <= x < |ds[1..]| ==> ds[1..][x] == ds[x + 1];
    }
    ParseShowDeclarator(s, k, ds[0]);
  }

  /** One `,` and the declarator after it, with nothing to skip. */
  lemma ListTailStep(s: seq<char>, j: nat, acc: seq<Declarator>, d: Declarator, m: nat)
    requires CharAt(s, j, ',') && Skip(s, j + 1) == Some(j + 1)
    requires ParseDeclarator(s, j + 1) == DeclaratorOk(d, m)
    ensures DeclaratorListTail(s, j, acc) == DeclaratorListTail(s, m, acc + [d])
  {
  }

  /** A declarator list printed with `,` between the declarators is read
      back as the same declarators, in the same order. */
  lemma ParseShowDeclaratorList(s: seq<char>, i: nat, ds: seq<Declarator>)
    requires |ds| > 0 && NamedDeclarators(ds)
    requires LitAt(s, i, ShowDeclaratorList(ds)) && EndsList(s, i + |ShowDeclaratorList(ds)|)
    ensures ParseDeclaratorList(s, i) == ListOk(ds, i + |ShowDeclaratorList(ds)|)
  {
    var j := DeclaratorRead(s, i, ds);
    DeclaratorListTailRead(s, j, [ds[0]], ds[1..]);
    assert [ds[0]] + ds[1..] == ds;
  }
}
