/** `compiler_state` as an object whose fields the grammar's callbacks update
    in place, and those callbacks as methods, each proved to make exactly the
    transition the pure parser makes on `Scope.Ctx`. */
module State {
  import opened Syntax
  import opened Scope
  import opened Declarators

  class CompilerState {
    /** `local_symbols`: the flat table from a name to its declaration. */
    var localSymbols: map<string, VariableDecl>
    /** `errored`: set by every semantic error, never cleared. */
    var errored: bool
    /** The semantic errors written to the diagnostic writer, in order. */
    var diagnostics: seq<Diagnostic>
    /** How many variable declarations the AST arena holds. */
    var declCount: nat

    /** The fields as a value. */
    function Snapshot(): Ctx
      reads this
    {
      Ctx(localSymbols, errored, diagnostics, declCount)
    }

    /** A fresh state: an empty table, not errored. */
    constructor ()
      ensures Snapshot() == Initial
    {
      localSymbols := map[];
      errored := false;
      diagnostics := [];
      declCount := 0;
    }

    /** The value callback of `identifier_expr`: look the name up; a miss
        reports an unknown identifier, sets `errored`, and still yields a
        node. */
    method IdentifierExpr(name: string) returns (e: Expr)
      modifies this
      ensures (e, Snapshot()) == LookupIdentifier(old(Snapshot()), name)
    {
      if name in localSymbols {
        e := Identifier(IntType, Some(localSymbols[name]));
      } else {
        diagnostics := diagnostics + [UnknownIdentifier(name)];
        errored := true;
        e := Identifier(IntType, None);
      }
    }

    /** `local_symbols.insert_or_shadow`: bind the name, returning the
        binding it replaced. */
    method InsertOrShadow(d: VariableDecl) returns (shadowed: Option<VariableDecl>)
      modifies this
      ensures (localSymbols, shadowed) == Scope.InsertOrShadow(old(localSymbols), d)
      ensures errored == old(errored) && diagnostics == old(diagnostics) && declCount == old(declCount)
    {
      shadowed := if d.name in localSymbols then Some(localSymbols[d.name]) else None;
      localSymbols := localSymbols[d.name := d];
    }

    /** The value callback of `decl_stmt`: inserts each declaration in turn;
        one that shadows a binding is reported as a duplicate and sets
        `errored`. */
    method DeclStmt(decls: seq<VariableDecl>) returns (st: Stmt)
      modifies this
      ensures st == Syntax.DeclStmt(decls)
      ensures Snapshot() == DeclareAll(old(Snapshot()), decls)
    {
      st := Syntax.DeclStmt(decls);
      for k := 0 to |decls|
        invariant Snapshot() == DeclareAll(old(Snapshot()), decls[..k])
      {
        assert decls[..k + 1][..k] == decls[..k];
        var shadowed := InsertOrShadow(decls[k]);
        if shadowed.Some? {
          diagnostics := diagnostics + [DuplicateLocal(decls[k].name)];
          errored := true;
        }
      }
      assert decls[..|decls|] == decls;
    }

    /** The value callback of `declaration`: each name declarator becomes a
        newly allocated `int` variable, pushed onto the result; the first
        function declarator stops with the corresponding `CLAUF_TODO`. */
    method Declaration(ds: seq<Declarator>) returns (r: Resolution)
      modifies this
      ensures r == ResolveDeclarators(old(declCount), ds)
      ensures r.Resolved? ==> declCount == old(declCount) + |ds|
      ensures localSymbols == old(localSymbols) && errored == old(errored) && diagnostics == old(diagnostics)
    {
      var result: seq<VariableDecl> := [];
      for k := 0 to |ds|
        invariant ResolveDeclarators(old(declCount), ds[..k]) == Resolved(result)
        invariant declCount == old(declCount) + |result| && |result| == k
        invariant localSymbols == old(localSymbols) && errored == old(errored) && diagnostics == old(diagnostics)
      {
        assert ds[..k + 1][..k] == ds[..k];
        match ds[k]
        case NameDeclarator(n) =>
          result := result + [VariableDecl(declCount, n, IntType)];
          declCount := declCount + 1;
        case FunctionDeclarator(child) =>
          ResolveDeclaratorsNames(old(declCount), ds[..k]);
          assert forall m :: 0 <= m < k ==> ds[m] == ds[..k][m];
          ResolveDeclaratorsFirstUnsupported(old(declCount), ds, k);
          if child.NameDeclarator? {
            return Unsupported(TodoFunctionDeclaration);
          } else {
            return Unsupported(TodoFunctionReturningFunction);
          }
      }
      assert ds[..|ds|] == ds;
      r := Resolved(result);
    }

    /** `function_start`: an empty local table for the next function body. */
    method FunctionStart()
      modifies this
      ensures Snapshot() == Scope.FunctionStart(old(Snapshot()))
    {
      localSymbols := map[];
    }
  }
}
