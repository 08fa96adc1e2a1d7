/** The parser state of one compilation (`compiler_state` without its
    diagnostic writer and arenas): the flat local symbol table, the sticky
    `errored` flag, the semantic diagnostics reported so far, and the number
    of variable declarations allocated, which gives each new declaration
    its identity. The transitions here are what the grammar's callbacks do
    to that state. */
module Scope {
  import opened Syntax

  datatype Ctx = Ctx(
    locals: map<string, VariableDecl>,
    errored: bool,
    diagnostics: seq<Diagnostic>,
    declCount: nat)

  /** The state a compilation starts in: no locals, not errored. */
  const Initial: Ctx := Ctx(map[], false, [], 0)

  /** `errored` is set exactly when a semantic diagnostic has been reported. */
  predicate Consistent(c: Ctx) {
    c.errored <==> |c.diagnostics| > 0
  }

  /** How the state may evolve while parsing: `errored` is never cleared,
      diagnostics are only appended, declarations are only allocated. */
  predicate Extends(c: Ctx, c': Ctx) {
    (c.errored ==> c'.errored)
    && c.diagnostics <= c'.diagnostics
    && c.declCount <= c'.declCount
  }

  lemma ExtendsTransitive(c1: Ctx, c2: Ctx, c3: Ctx)
    requires Extends(c1, c2) && Extends(c2, c3)
    ensures Extends(c1, c3)
  {
  }

  // ---------------------------------------------------------------------
  // Identifier lookup (the value callback of `identifier_expr`)

  /** Looks `name` up in the local table. A miss reports an unknown
      identifier and sets `errored`, but still yields an identifier node,
      with no declaration, so that parsing goes on. */
  function LookupIdentifier(c: Ctx, name: string): (r: (Expr, Ctx))
    ensures r.0.Identifier? && r.0.ty == IntType
    ensures name in c.locals ==> r.0.decl == Some(c.locals[name]) && r.1 == c
    ensures name !in c.locals ==>
      && r.0.decl == None
      && r.1 == c.(errored := true, diagnostics := c.diagnostics + [UnknownIdentifier(name)])
    ensures Extends(c, r.1) && r.1.locals == c.locals && r.1.declCount == c.declCount
    ensures Consistent(c) ==> Consistent(r.1)
    ensures !r.1.errored ==> r.0.decl.Some?
  {
    if name in c.locals then (Identifier(IntType, Some(c.locals[name])), c)
    else (Identifier(IntType, None),
          c.(errored := true, diagnostics := c.diagnostics + [UnknownIdentifier(name)]))
  }

  // ---------------------------------------------------------------------
  // Declaration statements (the value callback of `decl_stmt`)

  /** `insert_or_shadow`: binds the declaration's name to it and returns the
      binding it replaced, if there was one. */
  function InsertOrShadow(locals: map<string, VariableDecl>, d: VariableDecl)
    : (r: (map<string, VariableDecl>, Option<VariableDecl>))
    ensures r.0.Keys == locals.Keys + {d.name} && r.0[d.name] == d
    ensures forall n :: n in locals && n != d.name ==> r.0[n] == locals[n]
    ensures r.1.Some? <==> d.name in locals
    ensures r.1.Some? ==> r.1.value == locals[d.name]
  {
    (locals[d.name := d], if d.name in locals then Some(locals[d.name]) else None)
  }

  /** Inserts one declaration of a declaration statement; a replaced binding
      is a duplicate local declaration. */
  function Declare(c: Ctx, d: VariableDecl): (r: Ctx)
    ensures r.locals.Keys == c.locals.Keys + {d.name} && r.locals[d.name] == d
    ensures forall n :: n in c.locals && n != d.name ==> r.locals[n] == c.locals[n]
    ensures r.errored <==> c.errored || d.name in c.locals
    ensures r.diagnostics == c.diagnostics + (if d.name in c.locals then [DuplicateLocal(d.name)] else [])
    ensures r.declCount == c.declCount
  {
    var (locals', shadowed) := InsertOrShadow(c.locals, d);
    if shadowed.Some? then
      c.(locals := locals', errored := true, diagnostics := c.diagnostics + [DuplicateLocal(d.name)])
    else c.(locals := locals')
  }

  /** Inserts every declaration of a statement, in list order. */
  function DeclareAll(c: Ctx, decls: seq<VariableDecl>): (r: Ctx)
    ensures Extends(c, r) && r.declCount == c.declCount
    ensures Consistent(c) ==> Consistent(r)
    ensures forall n :: n in r.locals ==>
      (n in c.locals && r.locals[n] == c.locals[n]) || r.locals[n] in decls
    decreases |decls|
  {
    if decls == [] then c else Declare(DeclareAll(c, decls[..|decls| - 1]), decls[|decls| - 1])
  }

  /** The `k`-th declaration's name was already bound when it was inserted:
      by the table before the statement, or by an earlier declaration of the
      same statement. */
  predicate IsDuplicateAt(keys: set<string>, decls: seq<VariableDecl>, k: nat)
    requires k < |decls|
  {
    decls[k].name in keys || exists m :: 0 <= m < k && decls[m].name == decls[k].name
  }

  /** The names a declaration statement declares. */
  function DeclaredNames(decls: seq<VariableDecl>): set<string> {
    set d | d in decls :: d.name
  }

  /** After a declaration statement the table binds exactly the old names
      and the declared ones. */
  lemma {:induction false} DeclareAllKeys(c: Ctx, decls: seq<VariableDecl>)
    ensures DeclareAll(c, decls).locals.Keys == c.locals.Keys + DeclaredNames(decls)
    decreases |decls|
  {
    if decls != [] {
      var init := decls[..|decls| - 1];
      DeclareAllKeys(c, init);
      assert decls == init + [decls[|decls| - 1]];
      assert DeclaredNames(decls) == DeclaredNames(init) + {decls[|decls| - 1].name};
    }
  }

  /** Each name is bound to the LAST declaration of it in the statement;
      names the statement does not declare keep their binding. */
  lemma DeclareAllBindings(c: Ctx, decls: seq<VariableDecl>)
    ensures forall k :: 0 <= k < |decls| && (forall m :: k < m < |decls| ==> decls[m].name != decls[k].name)
              ==> decls[k].name in DeclareAll(c, decls).locals
                  && DeclareAll(c, decls).locals[decls[k].name] == decls[k]
    ensures forall n :: n in c.locals && (forall k :: 0 <= k < |decls| ==> decls[k].name != n)
              ==> n in DeclareAll(c, decls).locals && DeclareAll(c, decls).locals[n] == c.locals[n]
  {
    forall k | 0 <= k < |decls| && (forall m :: k < m < |decls| ==> decls[m].name != decls[k].name)
      ensures decls[k].name in DeclareAll(c, decls).locals
           && DeclareAll(c, decls).locals[decls[k].name] == decls[k]
    {
      LastBinding(c, decls, k);
    }
    forall n | n in c.locals && (forall k :: 0 <= k < |decls| ==> decls[k].name != n)
      ensures n in DeclareAll(c, decls).locals && DeclareAll(c, decls).locals[n] == c.locals[n]
    {
      KeptBinding(c, decls, n);
    }
  }

  /** A declaration whose name no later declaration repeats is what its
      name is bound to. */
  lemma {:induction false} LastBinding(c: Ctx, decls: seq<VariableDecl>, k: nat)
    requires k < |decls| && forall m :: k < m < |decls| ==> decls[m].name != decls[k].name
    ensures decls[k].name in DeclareAll(c, decls).locals
         && DeclareAll(c, decls).locals[decls[k].name] == decls[k]
    decreases |decls|
  {
    var init := decls[..|decls| - 1];
    if k < |init| {
      assert init[k] == decls[k];
      assert forall m :: k < m < |init| ==> init[m].name != init[k].name by {
        forall m | k < m < |init| ensures init[m].name != init[k].name {
          assert init[m] == decls[m];
        }
      }
      LastBinding(c, init, k);
    }
  }

  /** A name no declaration of the statement uses keeps its binding. */
  lemma {:induction false} KeptBinding(c: Ctx, decls: seq<VariableDecl>, n: string)
    requires n in c.locals && forall k :: 0 <= k < |decls| ==> decls[k].name != n
    ensures n in DeclareAll(c, decls).locals && DeclareAll(c, decls).locals[n] == c.locals[n]
    decreases |decls|
  {
    if decls != [] {
      var init := decls[..|decls| - 1];
      assert forall k :: 0 <= k < |init| ==> init[k].name != n by {
        forall k | 0 <= k < |init| ensures init[k].name != n { assert init[k] == decls[k]; }
      }
      KeptBinding(c, init, n);
    }
  }

  /** The last declaration of a statement is a duplicate exactly when its
      name is bound once the others are inserted. */
  lemma DuplicateOfLast(c: Ctx, decls: seq<VariableDecl>)
    requires decls != []
    ensures IsDuplicateAt(c.locals.Keys, decls, |decls| - 1) <==>
            decls[|decls| - 1].name in DeclareAll(c, decls[..|decls| - 1]).locals
  {
    var init := decls[..|decls| - 1];
    var last := |decls| - 1;
    DeclareAllKeys(c, init);
    if decls[last].name in DeclareAll(c, init).locals && decls[last].name !in c.locals.Keys {
      assert decls[last].name in DeclaredNames(init);
      var d :| d in init && d.name == decls[last].name;
      var m :| 0 <= m < |init| && init[m] == d;
      assert decls[m].name == decls[last].name;
    }
    if exists m :: 0 <= m < last && decls[m].name == decls[last].name {
      var m :| 0 <= m < last && decls[m].name == decls[last].name;
      assert init[m] in init;
    }
  }

  /** Whether an earlier declaration is a duplicate does not depend on the
      declarations after it. */
  lemma DuplicateOfInit(keys: set<string>, decls: seq<VariableDecl>, k: nat)
    requires k < |decls| - 1
    ensures IsDuplicateAt(keys, decls[..|decls| - 1], k) <==> IsDuplicateAt(keys, decls, k)
  {
    var init := decls[..|decls| - 1];
    assert init[k] == decls[k];
    if exists m :: 0 <= m < k && decls[m].name == decls[k].name {
      var m :| 0 <= m < k && decls[m].name == decls[k].name;
      assert init[m] == decls[m];
    }
  }

  /** A statement has a duplicate exactly when all but its last declaration
      have one or the last one is one. */
  lemma SomeDuplicateSplit(keys: set<string>, decls: seq<VariableDecl>, init: seq<VariableDecl>)
    requires decls != [] && init == decls[..|decls| - 1]
    ensures (exists k :: 0 <= k < |decls| && IsDuplicateAt(keys, decls, k))
        <==> (exists k :: 0 <= k < |decls| - 1 && IsDuplicateAt(keys, init, k))
             || IsDuplicateAt(keys, decls, |decls| - 1)
  {
    if k :| 0 <= k < |decls| - 1 && IsDuplicateAt(keys, init, k) {
      DuplicateOfInit(keys, decls, k);
    }
    if k :| 0 <= k < |decls| - 1 && IsDuplicateAt(keys, decls, k) {
      DuplicateOfInit(keys, decls, k);
    }
  }

  /** A statement has no duplicate exactly when all but its last declaration
      have none and the last one is none. */
  lemma NoDuplicateSplit(keys: set<string>, decls: seq<VariableDecl>, init: seq<VariableDecl>)
    requires decls != [] && init == decls[..|decls| - 1]
    ensures (forall k :: 0 <= k < |decls| ==> !IsDuplicateAt(keys, decls, k))
        <==> (forall k :: 0 <= k < |decls| - 1 ==> !IsDuplicateAt(keys, init, k))
             && !IsDuplicateAt(keys, decls, |decls| - 1)
  {
    SomeDuplicateSplit(keys, decls, init);
  }

  /** A declaration statement sets `errored` exactly when one of its names
      was already bound (before it, or earlier in the same statement). */
  lemma {:induction false} DeclareAllErrored(c: Ctx, decls: seq<VariableDecl>)
    ensures DeclareAll(c, decls).errored
        <==> c.errored || exists k :: 0 <= k < |decls| && IsDuplicateAt(c.locals.Keys, decls, k)
    decreases |decls|
  {
    if decls != [] {
      DeclareAllErrored(c, decls[..|decls| - 1]);
      DuplicateOfLast(c, decls);
      SomeDuplicateSplit(c.locals.Keys, decls, decls[..|decls| - 1]);
    }
  }

  /** One duplicate-declaration report per declaration whose name was
      already bound when it was inserted, in declaration order. */
  function DuplicateReports(keys: set<string>, decls: seq<VariableDecl>): (r: seq<Diagnostic>)
    ensures |r| <= |decls|
    ensures forall j :: 0 <= j < |r| ==> r[j].DuplicateLocal? && r[j].name in DeclaredNames(decls)
    decreases |decls|
  {
    if decls == [] then []
    else
      var init := decls[..|decls| - 1];
      var last := |decls| - 1;
      assert DeclaredNames(init) <= DeclaredNames(decls) by { assert forall d :: d in init ==> d in decls; }
      assert decls[last] in decls;
      DuplicateReports(keys, init)
        + (if IsDuplicateAt(keys, decls, last) then [DuplicateLocal(decls[last].name)] else [])
  }

  /** The diagnostics a declaration statement adds are exactly its
      duplicate-declaration reports: at most one per declaration, each
      naming a declared name. */
  lemma {:induction false} DeclareAllReports(c: Ctx, decls: seq<VariableDecl>)
    ensures var r := DeclareAll(c, decls);
      && r.diagnostics == c.diagnostics + DuplicateReports(c.locals.Keys, decls)
      && |r.diagnostics| - |c.diagnostics| <= |decls|
      && forall j :: |c.diagnostics| <= j < |r.diagnostics| ==>
           r.diagnostics[j].DuplicateLocal? && r.diagnostics[j].name in DeclaredNames(decls)
    decreases |decls|
  {
    if decls != [] {
      var init := decls[..|decls| - 1];
      DeclareAllReports(c, init);
      DuplicateOfLast(c, decls);
      var reports := DuplicateReports(c.locals.Keys, decls);
      assert DeclareAll(c, decls).diagnostics == c.diagnostics + reports;
      forall j | |c.diagnostics| <= j < |DeclareAll(c, decls).diagnostics|
        ensures DeclareAll(c, decls).diagnostics[j] == reports[j - |c.diagnostics|]
      {
      }
    }
  }

  /** A declaration statement reports nothing exactly when none of its
      declarations is a duplicate. */
  lemma {:induction false} DeclareAllSilent(c: Ctx, decls: seq<VariableDecl>)
    ensures DeclareAll(c, decls).diagnostics == c.diagnostics
        <==> forall k :: 0 <= k < |decls| ==> !IsDuplicateAt(c.locals.Keys, decls, k)
    decreases |decls|
  {
    if decls != [] {
      DeclareAllSilent(c, decls[..|decls| - 1]);
      DuplicateOfLast(c, decls);
      NoDuplicateSplit(c.locals.Keys, decls, decls[..|decls| - 1]);
    }
  }

  // ---------------------------------------------------------------------
  // Function bodies

  /** Every local binding is a declaration allocated since `lo`, that is,
      one made after the table was last emptied at `lo`. */
  predicate LocalsFrom(c: Ctx, lo: nat) {
    lo <= c.declCount
    && forall n :: n in c.locals ==> lo <= c.locals[n].id < c.declCount
  }

  /** The identities of the declarations the local table binds. */
  function LocalIds(c: Ctx): set<nat> {
    set n | n in c.locals :: c.locals[n].id
  }

  /** When the table holds only declarations allocated since `lo`, so does
      anything that refers only to declarations of the table. */
  lemma LocalIdsFrom(c: Ctx, lo: nat, ids: set<nat>)
    requires LocalsFrom(c, lo) && ids <= LocalIds(c)
    ensures forall a | a in ids :: lo <= a < c.declCount
  {
    forall a | a in ids ensures lo <= a < c.declCount {
      var n :| n in c.locals && c.locals[n].id == a;
    }
  }

  /** `function_start`: the local table is replaced by an empty one before a
      function body is parsed; nothing else changes. */
  function FunctionStart(c: Ctx): (r: Ctx)
    ensures r.locals == map[]
    ensures r.errored == c.errored && r.diagnostics == c.diagnostics && r.declCount == c.declCount
  {
    c.(locals := map[])
  }
}
