/**
 When the types the emitter settles on are the ones the checker inferred. The checker lets an integer stand for a
 truth value and types every literal by itself; the emitter does neither. An accepted body is elaborated to itself
 if it needs neither, and is refused otherwise.
 */
module Suitability {
  import opened Integers
  import opened Options
  import opened Syntax
  import opened Patterns
  import opened Termination
  import opened Checker
  import opened CheckerFlow
  import opened Elaboration

  // ----- the condition -----

  /** A boolean expression: a literal, or one whose own type is boolean. */
  predicate Truth(e: Expr, table: Table) {
    e.BoolLiteral? || ExprTypeOf(e, table) == Some(BooleanType)
  }

  /** Some read or conversion gives an integer expression its type. */
  predicate Grounded(e: Expr) {
    match e
    case Read(_, _) => true
    case Convert(_, _, _) => true
    case Arith(_, _, left, right) => Grounded(left) || Grounded(right)
    case Negate(_, operand) => Grounded(operand)
    case BitNot(_, operand) => Grounded(operand)
    case _ => false
  }

  /**
   Operands of logical operators are boolean, integer operations that consist of literals only stand where a type
   is asked for (`asked`), and equality of truth values has no literal operand.
   */
  predicate Suits(e: Expr, asked: bool, table: Table) {
    match e
    case IntLiteral(_, _) => asked
    case BoolLiteral(_) => true
    case Read(_, _) => true
    case Convert(_, _, operand) => operand.IntLiteral? || Suits(operand, false, table)
    case Arith(_, _, left, right) =>
      (asked || Grounded(left) || Grounded(right)) && Suits(left, true, table) && Suits(right, true, table)
    case Compare(_, _, left, right) =>
      (Grounded(left) || Grounded(right)) && Suits(left, true, table) && Suits(right, true, table)
    case SameBool(_, left, right) =>
      !left.BoolLiteral? && !right.BoolLiteral? && Suits(left, true, table) && Suits(right, true, table)
    case And(left, right) =>
      Truth(left, table) && Truth(right, table) && Suits(left, true, table) && Suits(right, true, table)
    case Or(left, right) =>
      Truth(left, table) && Truth(right, table) && Suits(left, true, table) && Suits(right, true, table)
    case Not(operand) => Truth(operand, table) && Suits(operand, false, table)
    case Negate(_, operand) => (asked || Grounded(operand)) && Suits(operand, true, table)
    case BitNot(_, operand) => (asked || Grounded(operand)) && Suits(operand, true, table)
  }

  /** Conditions are boolean, a scrutinee has a type of its own, and every expression suits its place. */
  predicate SuitsStatement(stmt: Stmt, table: Table)
    decreases stmt
  {
    match stmt
    case Declare(_, _, _) => true
    case Assign(_, e) => Suits(e, true, table)
    case Return(None) => true
    case Return(Some(e)) => Suits(e, true, table)
    case If(c, thenBlock, elseBlock) =>
      Truth(c, table) && Suits(c, false, table) && SuitsFrom(thenBlock, 0, table) && SuitsFrom(elseBlock, 0, table)
    case While(c, body) => Truth(c, table) && Suits(c, false, table) && SuitsFrom(body, 0, table)
    case Unsafe(body) => SuitsFrom(body, 0, table)
    case Match(t, scrutinee, cases) =>
      && ExprTypeOf(scrutinee, table).Some? && Suits(scrutinee, true, table)
      && forall i :: 0 <= i < |cases| ==> SuitsCase(cases[i], t, table)
  }

  predicate SuitsFrom(block: seq<Stmt>, i: nat, table: Table)
    decreases block, |block| - i
  {
    i < |block| ==>
      SuitsStatement(block[i], table) &&
      (Ends(block[i]) || SuitsFrom(block, i + 1, table + Left(block[i], true)))
  }

  predicate SuitsCase(c: Case, t: Type, table: Table)
    decreases c
  {
    match Analyze(t, c.pattern)
    case None => true
    case Some(info) => SuitsFrom(c.body, 0, table + Entries(info.bindings))
  }

  predicate SuitsFunction(parameters: seq<Parameter>, body: seq<Stmt>) {
    SuitsFrom(body, 0, ParameterTable(parameters))
  }

  // ----- the checker's locals as a table -----

  function TableOf(locals: Locals): (table: Table)
    ensures |table| == |locals|
    ensures forall i :: 0 <= i < |table| ==> table[i] == TypedName(locals[i].name, locals[i].t)
  {
    seq(|locals|, i requires 0 <= i < |locals| => TypedName(locals[i].name, locals[i].t))
  }

  lemma PlaceTyped(x: string, path: seq<nat>, locals: Locals)
    requires CheckRead(locals, x, path).Typed?
    ensures PlaceType(TableOf(locals), x, path) == Some(CheckRead(locals, x, path).t)
  {
    assert NamesIn(TableOf(locals)) == NamesOf(locals);
  }

  // ----- expressions -----

  /** What the emitter infers about an accepted expression is its type, or nothing if literals are all there is. */
  lemma {:induction false} InferredTypes(e: Expr, locals: Locals)
    requires TypeOf(e, locals).Typed?
    ensures var t := TypeOf(e, locals).t;
            && (t.IntegerType? ==>
                  && IntegerTypeOf(e, TableOf(locals)) == (if Grounded(e) then Some(t) else None)
                  && ExprTypeOf(e, TableOf(locals)) == IntegerTypeOf(e, TableOf(locals)))
            && (!t.IntegerType? ==> ExprTypeOf(e, TableOf(locals)) == if e.BoolLiteral? then None else Some(t))
            && (t.BooleanType? <==> Truth(e, TableOf(locals)))
    decreases e
  {
    hide PlaceType, CheckRead, FieldType, InRange, TableOf;
    match e
    case IntLiteral(_, _) =>
    case BoolLiteral(_) =>
    case Read(x, path) => PlaceTyped(x, path, locals);
    case Convert(_, _, _) =>
    case Arith(_, _, left, right) =>
      InferredTypes(left, locals);
      InferredTypes(right, locals);
    case Compare(_, _, _, _) =>
    case SameBool(_, _, _) =>
    case And(_, _) =>
    case Or(_, _) =>
    case Not(_) =>
    case Negate(_, operand) => InferredTypes(operand, locals);
    case BitNot(_, operand) => InferredTypes(operand, locals);
  }

  lemma ComparisonBoolean(e: Expr, left: Expr, right: Expr, expected: Option<Type>, table: Table)
    requires (e.Compare? || e.SameBool?) && left == e.left && right == e.right
    ensures var r := ElaborateComparison(e, left, right, expected, table); r.Elaborated? ==> r.t == BooleanType
  {
  }

  /** Asked for the other kind of type, an accepted expression keeps its own. */
  lemma OtherKind(e: Expr, locals: Locals, expected: Type)
    requires TypeOf(e, locals).Typed? && !e.BoolLiteral?
    requires var t := TypeOf(e, locals).t;
             (t.BooleanType? && expected.IntegerType?) || (t.IntegerType? && expected.BooleanType?)
    ensures var r := Elaborate(e, Some(expected), TableOf(locals));
            r.Elaborated? ==> if expected.BooleanType? then r.t.IntegerType? else r.t.BooleanType?
  {
    hide PlaceType, CheckRead, FieldType, InRange, TableOf;
    match e {
      case Read(x, path) => PlaceTyped(x, path, locals);
      case Compare(_, _, left, right) => ComparisonBoolean(e, left, right, Some(expected), TableOf(locals));
      case SameBool(_, left, right) => ComparisonBoolean(e, left, right, Some(expected), TableOf(locals));
      case _ =>
    }
  }

  /** An accepted expression is elaborated to itself where it suits, and refused elsewhere. */
  lemma {:induction false} ExprElaborates(e: Expr, expected: Option<Type>, locals: Locals)
    requires TypeOf(e, locals).Typed? && (expected.None? || expected == Some(TypeOf(e, locals).t))
    ensures Elaborate(e, expected, TableOf(locals))
            == if Suits(e, expected.Some?, TableOf(locals)) then Elaborated(e, TypeOf(e, locals).t) else Untyped
    decreases e
  {
    hide PlaceType, CheckRead, FieldType, InRange, TableOf;
    match e {
      case IntLiteral(_, _) =>
      case BoolLiteral(_) =>
      case Read(x, path) => PlaceTyped(x, path, locals);
      case Convert(_, _, operand) =>
        if !operand.IntLiteral? {
          ExprElaborates(operand, None, locals);
        }
      case Not(operand) =>
        InferredTypes(operand, locals);
        ExprElaborates(operand, None, locals);
      case Negate(t, operand) =>
        InferredTypes(operand, locals);
        ExprElaborates(operand, Some(IntegerType(t)), locals);
      case BitNot(t, operand) =>
        InferredTypes(operand, locals);
        ExprElaborates(operand, Some(IntegerType(t)), locals);
      case Arith(_, t, left, right) => OperationElaborates(e, t, left, right, expected, locals);
      case Compare(_, t, left, right) => OperationElaborates(e, t, left, right, expected, locals);
      case SameBool(_, left, right) => EqualityElaborates(e, left, right, expected, locals);
      case And(left, right) => LogicElaborates(e, left, right, expected, locals);
      case Or(left, right) => LogicElaborates(e, left, right, expected, locals);
    }
  }

  lemma {:induction false} OperationElaborates(
    e: Expr, t: IntType, left: Expr, right: Expr, expected: Option<Type>, locals: Locals)
    requires (e.Arith? || e.Compare?) && t == e.t && left == e.left && right == e.right
    requires TypeOf(e, locals).Typed? && (expected.None? || expected == Some(TypeOf(e, locals).t))
    ensures Elaborate(e, expected, TableOf(locals))
            == if Suits(e, expected.Some?, TableOf(locals)) then Elaborated(e, TypeOf(e, locals).t) else Untyped
    decreases e, 0
  {
    hide PlaceType, CheckRead, FieldType, InRange, TableOf, Grounded, IntegerTypeOf, ExprTypeOf;
    InferredTypes(left, locals);
    InferredTypes(right, locals);
    ExprElaborates(left, Some(IntegerType(t)), locals);
    ExprElaborates(right, Some(IntegerType(t)), locals);
    var o := OperationType(left, right, expected, TableOf(locals));
    if o.Some? {
      assert Elaborate(e, expected, TableOf(locals)) == ElaborateInteger(e, o.value, left, right, TableOf(locals));
    }
  }

  lemma {:induction false} EqualityElaborates(
    e: Expr, left: Expr, right: Expr, expected: Option<Type>, locals: Locals)
    requires e.SameBool? && left == e.left && right == e.right
    requires TypeOf(e, locals).Typed? && (expected.None? || expected == Some(TypeOf(e, locals).t))
    ensures Elaborate(e, expected, TableOf(locals))
            == if Suits(e, expected.Some?, TableOf(locals)) then Elaborated(e, TypeOf(e, locals).t) else Untyped
    decreases e, 0
  {
    hide PlaceType, CheckRead, FieldType, InRange, TableOf, Grounded;
    InferredTypes(left, locals);
    InferredTypes(right, locals);
    if !left.BoolLiteral? && !right.BoolLiteral? {
      ExprElaborates(left, Some(BooleanType), locals);
      ExprElaborates(right, Some(BooleanType), locals);
    } else {
      var o := OperationType(left, right, expected, TableOf(locals));
      if o.Some? {
        assert Elaborate(e, expected, TableOf(locals)) == ElaborateInteger(e, o.value, left, right, TableOf(locals));
      }
      if o.Some? && !left.BoolLiteral? {
        OtherKind(left, locals, IntegerType(o.value));
      } else if o.Some? && !right.BoolLiteral? {
        OtherKind(right, locals, IntegerType(o.value));
      }
    }
  }

  lemma {:induction false} LogicElaborates(
    e: Expr, left: Expr, right: Expr, expected: Option<Type>, locals: Locals)
    requires (e.And? || e.Or?) && left == e.left && right == e.right
    requires TypeOf(e, locals).Typed? && (expected.None? || expected == Some(TypeOf(e, locals).t))
    ensures Elaborate(e, expected, TableOf(locals))
            == if Suits(e, expected.Some?, TableOf(locals)) then Elaborated(e, TypeOf(e, locals).t) else Untyped
    decreases e, 0
  {
    hide PlaceType, CheckRead, FieldType, InRange, TableOf, Grounded, Truth, ExprTypeOf;
    OperandElaborates(left, locals, e);
    OperandElaborates(right, locals, e);
  }

  lemma {:induction false} OperandElaborates(operand: Expr, locals: Locals, e: Expr)
    requires operand < e && TypeOf(operand, locals).Typed? && BoolConvertible(TypeOf(operand, locals).t)
    ensures var r := Elaborate(operand, Some(BooleanType), TableOf(locals));
            if Truth(operand, TableOf(locals)) && Suits(operand, true, TableOf(locals))
            then r == Elaborated(operand, BooleanType)
            else r.Untyped? || r.t != BooleanType
    decreases e, 0, 0
  {
    hide TableOf, Suits;
    InferredTypes(operand, locals);
    if TypeOf(operand, locals).t.BooleanType? {
      ExprElaborates(operand, Some(BooleanType), locals);
    } else {
      OtherKind(operand, locals, BooleanType);
    }
  }

  // ----- statements -----

  lemma StatementTable(stmt: Stmt, locals: Locals, depth: nat, output: Option<Type>)
    requires CheckStatement(stmt, locals, depth, output).Accepted?
    ensures TableOf(CheckStatement(stmt, locals, depth, output).locals) == TableOf(locals) + Left(stmt, true)
  {
    hide CheckBlock, CheckCases, CheckAssign, CheckReturn, TypeOf;
    StatementKeeps(stmt, locals, depth, output);
  }

  lemma BoundTable(locals: Locals, bindings: seq<BindingInfo>, depth: nat)
    ensures TableOf(locals + BoundLocals(bindings, depth)) == TableOf(locals) + Entries(bindings)
  {
  }

  /** An accepted statement is elaborated to itself where everything in it suits, and refused elsewhere. */
  lemma {:induction false} StatementElaborates(stmt: Stmt, locals: Locals, depth: nat, output: Option<Type>)
    requires CheckStatement(stmt, locals, depth, output).Accepted?
    ensures ElaborateStatement(stmt, TableOf(locals), output, true)
            == if SuitsStatement(stmt, TableOf(locals)) then Some(stmt) else None
    decreases stmt, 1
  {
    hide TypeOf, TableOf, Elaborate, CheckBlock, CheckCases, ElaborateFrom, ElaborateCases, SuitsFrom, SuitsCase;
    hide Suits, Truth, ExprTypeOf, Transfer, MoveOnly;
    var table := TableOf(locals);
    match stmt {
      case Declare(_, _, _) =>
      case Assign(x, e) =>
        assert NamesIn(table) == NamesOf(locals);
        ExprElaborates(e, Some(TypeOf(e, locals).t), locals);
      case Return(result) =>
        if result.Some? {
          ExprElaborates(result.value, output, locals);
        }
      case If(c, thenBlock, elseBlock) =>
        ConditionElaborates(c, locals);
        BlockElaborates(thenBlock, locals, depth, output);
        BlockElaborates(elseBlock, locals, depth, output);
        assert table + LeftBy(thenBlock, true) == table;
      case While(c, body) =>
        ConditionElaborates(c, locals);
        BlockElaborates(body, locals, depth, output);
      case Unsafe(body) => BlockElaborates(body, locals, depth, output);
      case Match(_, _, _) => MatchElaborates(stmt, locals, depth, output);
    }
  }

  lemma ConditionElaborates(c: Expr, locals: Locals)
    requires TypeOf(c, locals).Typed?
    ensures ElaborateCondition(c, TableOf(locals))
            == if Truth(c, TableOf(locals)) && Suits(c, false, TableOf(locals)) then Some(c) else None
  {
    hide TypeOf, TableOf, Elaborate, Suits, Truth;
    InferredTypes(c, locals);
    ExprElaborates(c, None, locals);
  }

  lemma {:induction false} BlockElaborates(block: seq<Stmt>, locals: Locals, depth: nat, output: Option<Type>)
    requires CheckBlock(block, locals, depth, output).Accepted?
    ensures ElaborateFrom(block, 0, TableOf(locals), output, true)
            == if SuitsFrom(block, 0, TableOf(locals)) then Some(block) else None
    decreases block, |block| + 1
  {
    hide CheckFrom, ElaborateFrom, SuitsFrom;
    FromElaborates(block, 0, locals, depth + 1, output);
    assert block[0..] == block;
  }

  lemma {:induction false} FromElaborates(
    block: seq<Stmt>, i: nat, locals: Locals, depth: nat, output: Option<Type>)
    requires i <= |block| && CheckFrom(block, i, locals, depth, output).Accepted?
    ensures ElaborateFrom(block, i, TableOf(locals), output, true)
            == if SuitsFrom(block, i, TableOf(locals)) then Some(block[i..]) else None
    decreases block, |block| - i
  {
    hide CheckStatement, ElaborateStatement, SuitsStatement, TableOf, Left, Ends;
    if i < |block| {
      StatementElaborates(block[i], locals, depth, output);
      StatementFalls(block[i], locals, depth, output);
      StatementTable(block[i], locals, depth, output);
      assert [block[i]] + block[i + 1..] == block[i..];
      var v := CheckStatement(block[i], locals, depth, output);
      if v.falls {
        FromElaborates(block, i + 1, v.locals, depth, output);
      }
    } else {
      assert block[i..] == [];
    }
  }

  lemma {:induction false} MatchElaborates(stmt: Stmt, locals: Locals, depth: nat, output: Option<Type>)
    requires stmt.Match? && CheckStatement(stmt, locals, depth, output).Accepted?
    ensures ElaborateStatement(stmt, TableOf(locals), output, true)
            == if SuitsStatement(stmt, TableOf(locals)) then Some(stmt) else None
    decreases stmt, 0
  {
    hide TypeOf, TableOf, Elaborate, CheckCases, ElaborateCases, SuitsCase, Suits, ExprTypeOf, Truth, CheckCase;
    hide AnalyzeNode;
    var t, cases := stmt.matched, stmt.cases;
    InferredTypes(stmt.scrutinee, locals);
    ExprElaborates(stmt.scrutinee, Some(t), locals);
    CasesAccepted(t, cases, 0, Coverage(false, {}), None, locals, depth, output);
    CasesElaborate(t, cases, 0, locals, depth, output);
    assert cases[0..] == cases;
  }

  lemma {:induction false} CasesElaborate(
    t: Type, cases: seq<Case>, i: nat, locals: Locals, depth: nat, output: Option<Type>)
    requires i <= |cases|
    requires forall j :: i <= j < |cases| ==>
               Analyze(t, cases[j].pattern).Some?
               && CheckCase(cases[j], Analyze(t, cases[j].pattern).value, locals, depth, output).Accepted?
    ensures ElaborateCases(cases, i, t, TableOf(locals), output, true)
            == if forall j :: i <= j < |cases| ==> SuitsCase(cases[j], t, TableOf(locals)) then Some(cases[i..])
               else None
    decreases cases, |cases| - i
  {
    hide AnalyzeNode, CheckCase, ElaborateCase, SuitsCase, TableOf;
    if i < |cases| {
      CaseElaborates(t, cases[i], locals, depth, output);
      CasesElaborate(t, cases, i + 1, locals, depth, output);
      assert [cases[i]] + cases[i + 1..] == cases[i..];
    }
  }

  lemma {:induction false} CaseElaborates(t: Type, c: Case, locals: Locals, depth: nat, output: Option<Type>)
    requires Analyze(t, c.pattern).Some?
    requires CheckCase(c, Analyze(t, c.pattern).value, locals, depth, output).Accepted?
    ensures ElaborateCase(c, t, TableOf(locals), output, true)
            == if SuitsCase(c, t, TableOf(locals)) then Some(c) else None
    decreases c
  {
    hide AnalyzeNode, CheckBlock, ElaborateFrom, SuitsFrom, TableOf, BoundLocals, Entries;
    var info := Analyze(t, c.pattern).value;
    BoundTable(locals, info.bindings, depth + 1);
    BlockElaborates(c.body, locals + BoundLocals(info.bindings, depth + 1), depth, output);
  }

  /** With scoped names, an accepted function is elaborated to itself exactly if everything in it suits. */
  lemma AcceptedElaborates(parameters: seq<Parameter>, body: seq<Stmt>, output: Option<Type>)
    requires CheckFunction(parameters, body, output) == None
    ensures ElaborateFunction(parameters, body, output, true)
            == if SuitsFunction(parameters, body) then Some(body) else None
  {
    hide CheckBlock, ElaborateFrom, SuitsFrom;
    assert TableOf(ParameterLocals(parameters)) == ParameterTable(parameters);
    BlockElaborates(body, ParameterLocals(parameters), 0, output);
  }
}
