/**
 What the names that nested blocks leave in the emitter's table do to the types of a body. Two tables are walked
 side by side: the one a block's names leave when it ends, and the compiler's, where they stay.
 */
module Leftovers {
  import opened Integers
  import opened Options
  import opened Patterns
  import opened Syntax
  import opened Termination
  import opened Elaboration
  import opened Hygiene

  // ----- compatible types -----

  /** Equal types, or, unless `exact`, two integer types: one is coerced where the other is expected. */
  predicate Alike(t: Type, u: Type, exact: bool) {
    t == u || (!exact && t.IntegerType? && u.IntegerType?)
  }

  predicate AlikeOption(a: Option<Type>, b: Option<Type>, exact: bool) {
    match (a, b)
    case (None, None) => true
    case (Some(t), Some(u)) => Alike(t, u, exact)
    case _ => false
  }

  /** Every one of these names has compatible newest types in both tables. */
  predicate UsesAlike(names: set<string>, scoped: Table, kept: Table, exact: bool) {
    forall x :: x in names ==> AlikeOption(TypeAt(scoped, x), TypeAt(kept, x), exact)
  }

  /** Every name a statement uses has, where it is used, compatible types in both tables. */
  predicate Compatible(stmt: Stmt, scoped: Table, kept: Table, exact: bool)
    decreases stmt
  {
    match stmt
    case Declare(_, _, _) => true
    case Assign(x, e) => UsesAlike({x} + Reads(e), scoped, kept, exact)
    case Return(None) => true
    case Return(Some(e)) => UsesAlike(Reads(e), scoped, kept, exact)
    case If(c, thenBlock, elseBlock) =>
      && UsesAlike(Reads(c), scoped, kept, exact)
      && CompatibleFrom(thenBlock, 0, scoped, kept, exact)
      && CompatibleFrom(elseBlock, 0, scoped, kept + LeftBy(thenBlock, false), exact)
    case While(c, body) => UsesAlike(Reads(c), scoped, kept, exact) && CompatibleFrom(body, 0, scoped, kept, exact)
    case Unsafe(body) => CompatibleFrom(body, 0, scoped, kept, exact)
    case Match(_, scrutinee, cases) =>
      UsesAlike(Reads(scrutinee), scoped, kept, exact) &&
      var t, u := ExprTypeOf(scrutinee, scoped), ExprTypeOf(scrutinee, kept);
      t.Some? && u.Some? ==> forall i :: 0 <= i < |cases| ==> CompatibleCase(cases[i], t.value, u.value, scoped,
                                                                             kept, exact)
  }

  predicate CompatibleFrom(block: seq<Stmt>, i: nat, scoped: Table, kept: Table, exact: bool)
    decreases block, |block| - i
  {
    i < |block| ==>
      Compatible(block[i], scoped, kept, exact) &&
      (Ends(block[i]) || CompatibleFrom(block, i + 1, scoped + Left(block[i], true), kept + Left(block[i],
                                                                                                 false), exact))
  }

  predicate CompatibleCase(c: Case, t: Type, u: Type, scoped: Table, kept: Table, exact: bool)
    decreases c
  {
    var a, b := Analyze(t, c.pattern), Analyze(u, c.pattern);
    a.Some? && b.Some? ==>
      CompatibleFrom(c.body, 0, scoped + Entries(a.value.bindings), kept + Entries(b.value.bindings), exact)
  }

  /** No leftover of an incompatible type is used. */
  predicate LeftoversCompatible(parameters: seq<Parameter>, body: seq<Stmt>, exact: bool) {
    CompatibleFrom(body, 0, ParameterTable(parameters), ParameterTable(parameters), exact)
  }

  // ----- expressions -----

  lemma PlacesAlike(x: string, path: seq<nat>, scoped: Table, kept: Table, exact: bool)
    requires AlikeOption(TypeAt(scoped, x), TypeAt(kept, x), exact)
    ensures AlikeOption(PlaceType(scoped, x, path), PlaceType(kept, x, path), exact)
  {
  }

  lemma {:induction false} InferredAlike(e: Expr, scoped: Table, kept: Table, exact: bool)
    requires UsesAlike(Reads(e), scoped, kept, exact)
    ensures AlikeOption(IntegerTypeOf(e, scoped), IntegerTypeOf(e, kept), exact)
    ensures AlikeOption(ExprTypeOf(e, scoped), ExprTypeOf(e, kept), exact)
    decreases e
  {
    hide TypeAt, PlaceType;
    match e {
      case IntLiteral(_, _) =>
      case BoolLiteral(_) =>
      case Read(x, path) => PlacesAlike(x, path, scoped, kept, exact);
      case Convert(_, _, _) =>
      case Not(operand) => InferredAlike(operand, scoped, kept, exact);
      case Negate(_, operand) => InferredAlike(operand, scoped, kept, exact);
      case BitNot(_, operand) => InferredAlike(operand, scoped, kept, exact);
      case Arith(_, _, left, right) => OperandsAlike(e, left, right, scoped, kept, exact);
      case Compare(_, _, left, right) => OperandsAlike(e, left, right, scoped, kept, exact);
      case SameBool(_, left, right) => OperandsAlike(e, left, right, scoped, kept, exact);
      case And(left, right) => OperandsAlike(e, left, right, scoped, kept, exact);
      case Or(left, right) => OperandsAlike(e, left, right, scoped, kept, exact);
    }
  }

  lemma {:induction false} OperandsAlike(
    e: Expr, left: Expr, right: Expr, scoped: Table, kept: Table, exact: bool)
    requires left < e && right < e && UsesAlike(Reads(left) + Reads(right), scoped, kept, exact)
    ensures UsesAlike(Reads(left), scoped, kept, exact) && UsesAlike(Reads(right), scoped, kept, exact)
    ensures AlikeOption(IntegerTypeOf(left, scoped), IntegerTypeOf(left, kept), exact)
    ensures AlikeOption(IntegerTypeOf(right, scoped), IntegerTypeOf(right, kept), exact)
    ensures AlikeOption(ExprTypeOf(left, scoped), ExprTypeOf(left, kept), exact)
    ensures AlikeOption(ExprTypeOf(right, scoped), ExprTypeOf(right, kept), exact)
    decreases e, 0
  {
    hide TypeAt, IntegerTypeOf, ExprTypeOf;
    InferredAlike(left, scoped, kept, exact);
    InferredAlike(right, scoped, kept, exact);
  }

  /** Both elaborations succeed or neither does; the same one, if `exact`. */
  predicate Matched(r: Elaborated, r': Elaborated, exact: bool) {
    && r.Elaborated? == r'.Elaborated?
    && (r.Elaborated? ==> Alike(r.t, r'.t, exact))
    && (exact ==> r == r')
  }

  lemma CoercedMatched(r: Elaborated, r': Elaborated, target: Type, target': Type, exact: bool)
    requires Matched(r, r', exact) && Alike(target, target', exact)
    ensures Matched(Coerced(r, target), Coerced(r', target'), exact)
  {
  }

  lemma {:induction false} ExprMatched(
    e: Expr, expected: Option<Type>, expected': Option<Type>, scoped: Table, kept: Table, exact: bool)
    requires UsesAlike(Reads(e), scoped, kept, exact) && AlikeOption(expected, expected', exact)
    ensures Matched(Elaborate(e, expected, scoped), Elaborate(e, expected', kept), exact)
    decreases e, 2
  {
    hide TypeAt, PlaceType, IntegerTypeOf, ExprTypeOf, ElaborateInteger;
    match e {
      case IntLiteral(_, _) =>
      case BoolLiteral(_) =>
      case Read(x, path) => PlacesAlike(x, path, scoped, kept, exact);
      case Convert(_, _, operand) => ExprMatched(operand, None, None, scoped, kept, exact);
      case Not(operand) => ExprMatched(operand, None, None, scoped, kept, exact);
      case Negate(_, operand) => SignMatched(e, operand, expected, expected', scoped, kept, exact);
      case BitNot(_, operand) => SignMatched(e, operand, expected, expected', scoped, kept, exact);
      case Arith(_, _, left, right) => OperationMatched(e, left, right, expected, expected', scoped, kept, exact);
      case Compare(_, _, left, right) => OperationMatched(e, left, right, expected, expected', scoped, kept, exact);
      case SameBool(_, left, right) => OperationMatched(e, left, right, expected, expected', scoped, kept, exact);
      case And(left, right) => LogicMatched(e, left, right, scoped, kept, exact);
      case Or(left, right) => LogicMatched(e, left, right, scoped, kept, exact);
    }
  }

  lemma {:induction false} SignMatched(
    e: Expr, operand: Expr, expected: Option<Type>, expected': Option<Type>, scoped: Table, kept: Table, exact: bool)
    requires (e.Negate? || e.BitNot?) && operand == e.operand
    requires UsesAlike(Reads(e), scoped, kept, exact) && AlikeOption(expected, expected', exact)
    ensures Matched(ElaborateSign(e, operand, expected, scoped), ElaborateSign(e, operand, expected', kept), exact)
    decreases e, 0
  {
    hide TypeAt, IntegerTypeOf;
    InferredAlike(operand, scoped, kept, exact);
    var t := FirstConcrete(IntegerTypeOf(operand, scoped), None, expected);
    var t' := FirstConcrete(IntegerTypeOf(operand, kept), None, expected');
    if t.Some? {
      ExprMatched(operand, Some(IntegerType(t.value)), Some(IntegerType(t'.value)), scoped, kept, exact);
    }
  }

  lemma {:induction false} OperationMatched(
    e: Expr, left: Expr, right: Expr, expected: Option<Type>, expected': Option<Type>, scoped: Table, kept: Table,
    exact: bool)
    requires (e.Arith? || e.Compare? || e.SameBool?) && left == e.left && right == e.right
    requires UsesAlike(Reads(e), scoped, kept, exact) && AlikeOption(expected, expected', exact)
    ensures Matched(Elaborate(e, expected, scoped), Elaborate(e, expected', kept), exact)
    decreases e, 1
  {
    hide TypeAt, IntegerTypeOf, ExprTypeOf, ElaborateInteger, Coerced, UsesAlike;
    UsesOf(e, left, right, scoped, kept, exact);
    OperandsAlike(e, left, right, scoped, kept, exact);
    ExprMatched(left, Some(BooleanType), Some(BooleanType), scoped, kept, exact);
    ExprMatched(right, Some(BooleanType), Some(BooleanType), scoped, kept, exact);
    var t, t' := OperationType(left, right, expected, scoped), OperationType(left, right, expected', kept);
    if t.Some? {
      IntegerMatched(e, t.value, t'.value, left, right, scoped, kept, exact);
    }
  }

  lemma UsesOf(e: Expr, left: Expr, right: Expr, scoped: Table, kept: Table, exact: bool)
    requires e.Arith? || e.Compare? || e.SameBool? || e.And? || e.Or?
    requires left == e.left && right == e.right && UsesAlike(Reads(e), scoped, kept, exact)
    ensures UsesAlike(Reads(left) + Reads(right), scoped, kept, exact)
  {
  }

  lemma {:induction false} IntegerMatched(
    e: Expr, t: IntType, t': IntType, left: Expr, right: Expr, scoped: Table, kept: Table, exact: bool)
    requires (e.Arith? || e.Compare? || e.SameBool?) && left == e.left && right == e.right && (exact ==> t == t')
    requires UsesAlike(Reads(left), scoped, kept, exact) && UsesAlike(Reads(right), scoped, kept, exact)
    ensures Matched(ElaborateInteger(e, t, left, right, scoped), ElaborateInteger(e, t', left, right, kept), exact)
    decreases e, 0
  {
    hide TypeAt, IntegerTypeOf, ExprTypeOf, Coerced, UsesAlike;
    var a, a' := IntegerType(t), IntegerType(t');
    ExprMatched(left, Some(a), Some(a'), scoped, kept, exact);
    ExprMatched(right, Some(a), Some(a'), scoped, kept, exact);
    CoercedMatched(Elaborate(left, Some(a), scoped), Elaborate(left, Some(a'), kept), a, a', exact);
    CoercedMatched(Elaborate(right, Some(a), scoped), Elaborate(right, Some(a'), kept), a, a', exact);
  }

  lemma {:induction false} LogicMatched(
    e: Expr, left: Expr, right: Expr, scoped: Table, kept: Table, exact: bool)
    requires (e.And? || e.Or?) && left == e.left && right == e.right && UsesAlike(Reads(e), scoped, kept, exact)
    ensures Matched(ElaborateLogic(e, left, right, scoped), ElaborateLogic(e, left, right, kept), exact)
    decreases e, 0
  {
    hide TypeAt;
    UsesOf(e, left, right, scoped, kept, exact);
    OperandsAlike(e, left, right, scoped, kept, exact);
    ExprMatched(left, Some(BooleanType), Some(BooleanType), scoped, kept, exact);
    ExprMatched(right, Some(BooleanType), Some(BooleanType), scoped, kept, exact);
  }

  // ----- statements -----

  predicate Both<T(==)>(a: Option<T>, b: Option<T>, exact: bool) {
    a.Some? == b.Some? && (exact ==> a == b)
  }

  lemma ValueMatched(e: Expr, target: Type, target': Type, scoped: Table, kept: Table, exact: bool)
    requires UsesAlike(Reads(e), scoped, kept, exact) && Alike(target, target', exact)
    ensures Matched(Coerced(Elaborate(e, Some(target), scoped), target),
                    Coerced(Elaborate(e, Some(target'), kept), target'), exact)
  {
    hide Elaborate, Coerced, UsesAlike, Reads;
    ExprMatched(e, Some(target), Some(target'), scoped, kept, exact);
    CoercedMatched(Elaborate(e, Some(target), scoped), Elaborate(e, Some(target'), kept), target, target', exact);
  }

  /** Where every use is compatible, the two elaborations of a statement stand or fall together. */
  lemma {:induction false} StatementMatched(
    stmt: Stmt, scoped: Table, kept: Table, output: Option<Type>, exact: bool)
    requires Compatible(stmt, scoped, kept, exact)
    ensures Both(ElaborateStatement(stmt, scoped, output, true), ElaborateStatement(stmt, kept, output, false), exact)
    decreases stmt, 1
  {
    hide Elaborate, Coerced, ElaborateFrom, ElaborateCases, TypeAt, Reads, CompatibleFrom, CompatibleCase;
    hide ElaborateScrutinee;
    hide LeftFrom, ExprTypeOf, UsesAlike;
    match stmt {
      case Declare(_, _, _) =>
      case Assign(x, e) => AssignMatched(stmt, scoped, kept, output, exact);
      case Return(result) =>
        if result.Some? && output.Some? {
          ValueMatched(result.value, output.value, output.value, scoped, kept, exact);
        }
      case If(c, thenBlock, elseBlock) =>
        ExprMatched(c, None, None, scoped, kept, exact);
        FromMatched(thenBlock, 0, scoped, kept, output, exact);
        FromMatched(elseBlock, 0, scoped, kept + LeftBy(thenBlock, false), output, exact);
        assert scoped + LeftBy(thenBlock, true) == scoped;
      case While(c, body) =>
        ExprMatched(c, None, None, scoped, kept, exact);
        FromMatched(body, 0, scoped, kept, output, exact);
      case Unsafe(body) => FromMatched(body, 0, scoped, kept, output, exact);
      case Match(_, scrutinee, cases) =>
        ScrutineeMatched(scrutinee, scoped, kept, exact);
        var r, r' := ElaborateScrutinee(scrutinee, scoped), ElaborateScrutinee(scrutinee, kept);
        if r.Elaborated? {
          CasesMatched(cases, 0, r.t, r'.t, scoped, kept, output, exact);
        }
    }
  }

  lemma AssignMatched(stmt: Stmt, scoped: Table, kept: Table, output: Option<Type>, exact: bool)
    requires stmt.Assign? && Compatible(stmt, scoped, kept, exact)
    ensures Both(ElaborateStatement(stmt, scoped, output, true), ElaborateStatement(stmt, kept, output, false), exact)
  {
    hide Elaborate, Coerced, TypeAt, Reads;
    assert AlikeOption(TypeAt(scoped, stmt.name), TypeAt(kept, stmt.name), exact);
    var t, t' := TypeAt(scoped, stmt.name), TypeAt(kept, stmt.name);
    if t.Some? {
      ValueMatched(stmt.value, t.value, t'.value, scoped, kept, exact);
    }
  }

  lemma ScrutineeMatched(scrutinee: Expr, scoped: Table, kept: Table, exact: bool)
    requires UsesAlike(Reads(scrutinee), scoped, kept, exact)
    ensures Matched(ElaborateScrutinee(scrutinee, scoped), ElaborateScrutinee(scrutinee, kept), exact)
    ensures AlikeOption(ExprTypeOf(scrutinee, scoped), ExprTypeOf(scrutinee, kept), exact)
    ensures ElaborateScrutinee(scrutinee, scoped).Elaborated? ==>
              ExprTypeOf(scrutinee, scoped) == Some(ElaborateScrutinee(scrutinee, scoped).t)
              && ExprTypeOf(scrutinee, kept) == Some(ElaborateScrutinee(scrutinee, kept).t)
  {
    hide Elaborate, UsesAlike, Reads, ExprTypeOf;
    InferredAlike(scrutinee, scoped, kept, exact);
    var t, t' := ExprTypeOf(scrutinee, scoped), ExprTypeOf(scrutinee, kept);
    if t.Some? {
      ValueMatched(scrutinee, t.value, t'.value, scoped, kept, exact);
    }
  }

  lemma {:induction false} FromMatched(
    block: seq<Stmt>, i: nat, scoped: Table, kept: Table, output: Option<Type>, exact: bool)
    requires CompatibleFrom(block, i, scoped, kept, exact)
    ensures Both(ElaborateFrom(block, i, scoped, output, true), ElaborateFrom(block, i, kept, output, false), exact)
    decreases block, |block| - i
  {
    hide ElaborateStatement, Compatible, Left, Ends;
    if i < |block| {
      StatementMatched(block[i], scoped, kept, output, exact);
      if !Ends(block[i]) {
        FromMatched(block, i + 1, scoped + Left(block[i], true), kept + Left(block[i], false), output, exact);
      }
    }
  }

  lemma {:induction false} CasesMatched(
    cases: seq<Case>, i: nat, t: Type, t': Type, scoped: Table, kept: Table, output: Option<Type>, exact: bool)
    requires Alike(t, t', exact)
    requires forall j :: 0 <= j < |cases| ==> CompatibleCase(cases[j], t, t', scoped, kept, exact)
    ensures Both(ElaborateCases(cases, i, t, scoped, output, true), ElaborateCases(cases, i, t', kept, output,
                                                                                   false), exact)
    decreases cases, |cases| - i
  {
    hide ElaborateCase, CompatibleCase;
    if i < |cases| {
      CaseMatched(cases[i], t, t', scoped, kept, output, exact);
      CasesMatched(cases, i + 1, t, t', scoped, kept, output, exact);
    }
  }

  lemma {:induction false} CaseMatched(
    c: Case, t: Type, t': Type, scoped: Table, kept: Table, output: Option<Type>, exact: bool)
    requires Alike(t, t', exact) && CompatibleCase(c, t, t', scoped, kept, exact)
    ensures Both(ElaborateCase(c, t, scoped, output, true), ElaborateCase(c, t', kept, output, false), exact)
    decreases c
  {
    hide ElaborateFrom, CompatibleFrom, AnalyzeNode;
    AnalyzedAlike(t, t', c.pattern, exact);
    var a, a' := Analyze(t, c.pattern), Analyze(t', c.pattern);
    if a.Some? {
      FromMatched(c.body, 0, scoped + Entries(a.value.bindings), kept + Entries(a'.value.bindings), output, exact);
    }
  }

  lemma AnalyzedAlike(t: Type, t': Type, p: Pattern, exact: bool)
    requires Alike(t, t', exact)
    ensures Analyze(t, p).Some? <==> Analyze(t', p).Some?
  {
  }

  /** Leftovers of compatible types never decide whether a function has types, and equal ones never change them. */
  lemma ElaborationsMatched(parameters: seq<Parameter>, body: seq<Stmt>, output: Option<Type>, exact: bool)
    requires LeftoversCompatible(parameters, body, exact)
    ensures var scoped, kept :=
              ElaborateFunction(parameters, body, output, true), ElaborateFunction(parameters, body, output, false);
            scoped.Some? == kept.Some? && (exact ==> scoped == kept)
  {
    FromMatched(body, 0, ParameterTable(parameters), ParameterTable(parameters), output, exact);
  }

  // ----- without stale names -----

  /** The tables give every name that is not stale the same type. */
  ghost predicate SameTypes(scoped: Table, kept: Table, stale: set<string>) {
    forall x :: x !in stale ==> TypeAt(scoped, x) == TypeAt(kept, x)
  }

  lemma {:induction false} NewestMore(names: seq<string>, more: seq<string>, x: string)
    ensures Newest(names + more, x)
            == match Newest(more, x)
               case Some(i) => Some(|names| + i)
               case None => Newest(names, x)
    decreases |more|
  {
    if more == [] {
      assert names + more == names;
    } else if more[|more| - 1] != x {
      assert (names + more)[..|names + more| - 1] == names + more[..|more| - 1];
      NewestMore(names, more[..|more| - 1], x);
    }
  }

  /** Later entries hide earlier ones. */
  lemma TypeAtMore(table: Table, more: Table, x: string)
    ensures TypeAt(table + more, x) == if x in NamesIn(more) then TypeAt(more, x) else TypeAt(table, x)
  {
    assert NamesIn(table + more) == NamesIn(table) + NamesIn(more);
    NewestMore(NamesIn(table), NamesIn(more), x);
  }

  lemma SameTypesMore(scoped: Table, kept: Table, more: Table, stale: set<string>, after: set<string>)
    requires SameTypes(scoped, kept, stale) && forall x :: x !in after ==> x !in stale || x in NamesIn(more)
    ensures SameTypes(scoped + more, kept + more, after)
  {
    forall x | x !in after
      ensures TypeAt(scoped + more, x) == TypeAt(kept + more, x)
    {
      TypeAtMore(scoped, more, x);
      TypeAtMore(kept, more, x);
    }
  }

  lemma CleanUses(names: set<string>, scoped: Table, kept: Table, stale: set<string>)
    requires SameTypes(scoped, kept, stale) && names !! stale
    ensures UsesAlike(names, scoped, kept, true)
  {
    hide TypeAt;
    forall x | x in names
      ensures AlikeOption(TypeAt(scoped, x), TypeAt(kept, x), true)
    {
      assert x !in stale;
    }
  }

  /** Scoped names are exactly those declared directly in the block. */
  lemma {:induction false} ScopedNames(block: seq<Stmt>, i: nat, x: string)
    ensures x in NamesIn(LeftFrom(block, i, true)) ==> x in DeclaredFrom(block, i)
    decreases |block| - i
  {
    hide Ends;
    if i < |block| {
      ScopedNames(block, i + 1, x);
      var first, rest := Left(block[i], true), LeftFrom(block, i + 1, true);
      assert NamesIn(first + rest) == NamesIn(first) + NamesIn(rest);
      assert first + [] == first;
    }
  }

  /** Leaving a block makes the names it declared stale. */
  lemma BlockLeaves(scoped: Table, kept: Table, block: seq<Stmt>, stale: set<string>)
    requires SameTypes(scoped + LeftFrom(block, 0, true), kept + LeftFrom(block, 0, false), stale)
    ensures SameTypes(scoped, kept + LeftFrom(block, 0, false), stale + DeclaredFrom(block, 0))
  {
    hide TypeAt, LeftFrom, DeclaredFrom;
    forall x | x !in stale + DeclaredFrom(block, 0)
      ensures TypeAt(scoped, x) == TypeAt(kept + LeftFrom(block, 0, false), x)
    {
      ScopedNames(block, 0, x);
      TypeAtMore(scoped, LeftFrom(block, 0, true), x);
    }
  }

  /** Where no stale name is used, every use has the same type in both tables. */
  lemma {:induction false} CleanStatement(stmt: Stmt, scoped: Table, kept: Table, stale: set<string>)
    requires SameTypes(scoped, kept, stale) && AfterStatement(stmt, stale).Some?
    ensures Compatible(stmt, scoped, kept, true)
    ensures SameTypes(scoped + Left(stmt, true), kept + Left(stmt, false), AfterStatement(stmt, stale).value)
    decreases stmt
  {
    hide TypeAt, Reads, AfterFrom, DeclaredFrom, CompatibleFrom, CompatibleCase, UsesAlike, LeftFrom, SameTypes;
    hide CaseClean;
    hide ExprTypeOf;
    assert scoped + [] == scoped && kept + [] == kept;
    match stmt {
      case Declare(x, t, _) =>
        assert NamesIn([TypedName(x, t)]) == [x];
        SameTypesMore(scoped, kept, [TypedName(x, t)], stale, stale - {x});
      case Assign(x, e) =>
        CleanUses({x} + Reads(e), scoped, kept, stale);
      case Return(result) =>
        if result.Some? {
          CleanUses(Reads(result.value), scoped, kept, stale);
        }
      case If(c, thenBlock, elseBlock) =>
        CleanUses(Reads(c), scoped, kept, stale);
        CleanBlock(thenBlock, scoped, kept, stale);
        CleanBlock(elseBlock, scoped, kept + LeftBy(thenBlock, false), AfterBlock(thenBlock, stale).value);
        assert kept + LeftFrom(thenBlock, 0, false) + LeftFrom(elseBlock, 0, false) == kept + Left(stmt, false);
      case While(c, body) =>
        CleanUses(Reads(c), scoped, kept, stale);
        CleanBlock(body, scoped, kept, stale);
      case Unsafe(body) => CleanBlock(body, scoped, kept, stale);
      case Match(_, scrutinee, cases) =>
        CleanUses(Reads(scrutinee), scoped, kept, stale);
        InferredAlike(scrutinee, scoped, kept, true);
        var t := ExprTypeOf(scrutinee, scoped);
        if t.Some? {
          forall i | 0 <= i < |cases|
            ensures CompatibleCase(cases[i], t.value, t.value, scoped, kept, true)
          {
            assert CaseClean(cases[i], stale);
            CleanCase(cases[i], t.value, scoped, kept, stale);
          }
        }
    }
  }

  lemma {:induction false} CleanBlock(block: seq<Stmt>, scoped: Table, kept: Table, stale: set<string>)
    requires SameTypes(scoped, kept, stale) && AfterBlock(block, stale).Some?
    ensures CompatibleFrom(block, 0, scoped, kept, true)
    ensures SameTypes(scoped, kept + LeftFrom(block, 0, false), AfterBlock(block, stale).value)
    decreases block, |block| + 1
  {
    hide SameTypes, LeftFrom, CompatibleFrom, AfterFrom, DeclaredFrom;
    CleanFrom(block, 0, scoped, kept, stale);
    BlockLeaves(scoped, kept, block, AfterFrom(block, 0, stale).value);
  }

  lemma {:induction false} CleanFrom(block: seq<Stmt>, i: nat, scoped: Table, kept: Table, stale: set<string>)
    requires SameTypes(scoped, kept, stale) && AfterFrom(block, i, stale).Some?
    ensures CompatibleFrom(block, i, scoped, kept, true)
    ensures SameTypes(scoped + LeftFrom(block, i, true), kept + LeftFrom(block, i, false), AfterFrom(block, i,
                                                                                                     stale).value)
    decreases block, |block| - i
  {
    hide SameTypes, AfterStatement, Compatible, Left, Ends;
    assert scoped + [] == scoped && kept + [] == kept;
    if i < |block| {
      CleanStatement(block[i], scoped, kept, stale);
      var a, b := Left(block[i], true), Left(block[i], false);
      assert a + [] == a && b + [] == b;
      if !Ends(block[i]) {
        CleanFrom(block, i + 1, scoped + a, kept + b, AfterStatement(block[i], stale).value);
        assert scoped + a + LeftFrom(block, i + 1, true) == scoped + (a + LeftFrom(block, i + 1, true));
        assert kept + b + LeftFrom(block, i + 1, false) == kept + (b + LeftFrom(block, i + 1, false));
      }
    }
  }

  lemma {:induction false} CleanCase(c: Case, t: Type, scoped: Table, kept: Table, stale: set<string>)
    requires SameTypes(scoped, kept, stale) && CaseClean(c, stale)
    ensures CompatibleCase(c, t, t, scoped, kept, true)
    decreases c
  {
    hide SameTypes, AfterFrom, CompatibleFrom, AnalyzeNode, PatternNames;
    var info := Analyze(t, c.pattern);
    if info.Some? {
      var more := Entries(info.value.bindings);
      forall x | x in PatternNames(c.pattern)
        ensures x in NamesIn(more)
      {
        NamesBound(t, c.pattern, [], x);
        var i :| 0 <= i < |info.value.bindings| && info.value.bindings[i].name == x;
        assert NamesIn(more)[i] == x;
      }
      SameTypesMore(scoped, kept, more, stale, stale - PatternNames(c.pattern));
      CleanFrom(c.body, 0, scoped + more, kept + more, stale - PatternNames(c.pattern));
    }
  }

  /** The analysis reports every name of a pattern. */
  lemma {:induction false} NamesBound(t: Type, p: Pattern, found: seq<BindingInfo>, x: string)
    requires AnalyzeNode(t, p, found).Some? && (x in PatternNames(p) || Binds(found, x))
    ensures Binds(AnalyzeNode(t, p, found).value.bindings, x)
    decreases p
  {
    match p
    case Wildcard =>
    case Binding(y) =>
      var all := found + [BindingInfo(y, t)];
      if x == y {
        assert all[|found|].name == x;
      } else {
        var i :| 0 <= i < |found| && found[i].name == x;
        assert all[i].name == x;
      }
    case StructPattern(fields) => FieldNamesBound(t, fields, 0, found, x);
    case EnumPattern(tag, payloads) => PayloadNamesBound(t.constructors[tag].payloads, payloads, 0, found, x);
  }

  lemma {:induction false} FieldNamesBound(
    t: Type, fields: seq<FieldPattern>, i: nat, found: seq<BindingInfo>, x: string)
    requires t.StructType? && AnalyzeFields(t, fields, i, found).Some? && (x in FieldNames(fields,
                                                                                           i) || Binds(found, x))
    ensures Binds(AnalyzeFields(t, fields, i, found).value.0, x)
    decreases fields, |fields| - i
  {
    hide Binds, AnalyzeField, FieldName;
    if i < |fields| {
      if x in FieldName(fields[i]) || Binds(found, x) {
        FieldNameBound(t, fields[i], found, x);
      }
      FieldNamesBound(t, fields, i + 1, AnalyzeField(t, fields[i], found).value.bindings, x);
    }
  }

  lemma {:induction false} FieldNameBound(t: Type, f: FieldPattern, found: seq<BindingInfo>, x: string)
    requires t.StructType? && AnalyzeField(t, f, found).Some? && (x in FieldName(f) || Binds(found, x))
    ensures Binds(AnalyzeField(t, f, found).value.bindings, x)
    decreases f
  {
    NamesBound(t.fields[f.index], f.pattern, found, x);
  }

  lemma {:induction false} PayloadNamesBound(
    ts: seq<Type>, payloads: seq<Pattern>, i: nat, found: seq<BindingInfo>, x: string)
    requires |ts| == |payloads| && AnalyzePayloads(ts, payloads, i, found).Some?
    requires x in PayloadNames(payloads, i) || Binds(found, x)
    ensures Binds(AnalyzePayloads(ts, payloads, i, found).value.0, x)
    decreases payloads, |payloads| - i
  {
    hide Binds, AnalyzeNode, PatternNames;
    if i < |payloads| {
      if x in PatternNames(payloads[i]) || Binds(found, x) {
        NamesBound(ts[i], payloads[i], found, x);
      }
      PayloadNamesBound(ts, payloads, i + 1, AnalyzeNode(ts[i], payloads[i], found).value.bindings, x);
    }
  }

  /** A body without stale names has compatible leftovers: its uses see the same types. */
  lemma StaleFreeCompatible(parameters: seq<Parameter>, body: seq<Stmt>)
    requires StaleFree(body)
    ensures LeftoversCompatible(parameters, body, true)
  {
    hide AfterFrom, CompatibleFrom;
    CleanFrom(body, 0, ParameterTable(parameters), ParameterTable(parameters), {});
  }
}
