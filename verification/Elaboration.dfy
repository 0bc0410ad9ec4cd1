/**
 The types the emitter works with. It keeps its own table of typed locals, looks every operand up in it again,
 coerces integers, and refuses what it cannot type. Elaboration is that part of emission by itself: it rewrites a
 body so that every annotation is the type the emitter uses and every coercion is an explicit conversion, or
 refuses the body. `pops` says, as in `Lowering`, whether nested blocks drop their names when they end.
 */
module Elaboration {
  import opened Integers
  import opened Options
  import opened Patterns
  import opened Syntax
  import opened Termination

  datatype TypedName = TypedName(name: string, t: Type)

  /** The names and types of the local table, oldest first. */
  type Table = seq<TypedName>

  function NamesIn(table: Table): (names: seq<string>)
    ensures |names| == |table|
    ensures forall i :: 0 <= i < |table| ==> names[i] == table[i].name
  {
    seq(|table|, i requires 0 <= i < |table| => table[i].name)
  }

  /** The type of the newest local of a name. */
  function TypeAt(table: Table, x: string): Option<Type> {
    match Newest(NamesIn(table), x)
    case None => None
    case Some(i) => Some(table[i].t)
  }

  function PlaceType(table: Table, x: string, path: seq<nat>): Option<Type> {
    match TypeAt(table, x)
    case None => None
    case Some(t) => FieldType(t, path)
  }

  // ----- what the emitter infers before it emits -----

  function First(a: Option<Type>, b: Option<Type>): Option<Type> {
    if a.Some? then a else b
  }

  /** The type that the operands of an integer operator suggest. Literals suggest none. */
  function IntegerTypeOf(e: Expr, table: Table): Option<Type> {
    match e
    case IntLiteral(_, _) => None
    case BoolLiteral(_) => None
    case Read(x, path) => PlaceType(table, x, path)
    case Convert(_, to, _) => Some(IntegerType(to))
    case Arith(_, _, left, right) => First(IntegerTypeOf(left, table), IntegerTypeOf(right, table))
    case Compare(_, _, left, right) => First(IntegerTypeOf(left, table), IntegerTypeOf(right, table))
    case SameBool(_, left, right) => First(IntegerTypeOf(left, table), IntegerTypeOf(right, table))
    case And(left, right) => First(IntegerTypeOf(left, table), IntegerTypeOf(right, table))
    case Or(left, right) => First(IntegerTypeOf(left, table), IntegerTypeOf(right, table))
    case Not(operand) => IntegerTypeOf(operand, table)
    case Negate(_, operand) => IntegerTypeOf(operand, table)
    case BitNot(_, operand) => IntegerTypeOf(operand, table)
  }

  /** The type of an expression as far as it is known without emitting it. */
  function ExprTypeOf(e: Expr, table: Table): Option<Type> {
    match e
    case IntLiteral(_, _) => None
    case BoolLiteral(_) => None
    case Read(x, path) => PlaceType(table, x, path)
    case Convert(_, to, _) => Some(IntegerType(to))
    case Arith(_, _, _, _) => IntegerTypeOf(e, table)
    case Compare(_, _, _, _) => Some(BooleanType)
    case SameBool(_, _, _) => Some(BooleanType)
    case And(_, _) => Some(BooleanType)
    case Or(_, _) => Some(BooleanType)
    case Not(_) => Some(BooleanType)
    case Negate(_, operand) => ExprTypeOf(operand, table)
    case BitNot(_, operand) => ExprTypeOf(operand, table)
  }

  function Concrete(t: Option<Type>): Option<IntType> {
    if t.Some? && t.value.IntegerType? then Some(t.value.it) else None
  }

  function FirstConcrete(a: Option<Type>, b: Option<Type>, c: Option<Type>): Option<IntType> {
    if Concrete(a).Some? then Concrete(a) else if Concrete(b).Some? then Concrete(b) else Concrete(c)
  }

  /** The type an integer operator computes at: its left operand's, its right operand's, or the expected one. */
  function OperationType(left: Expr, right: Expr, expected: Option<Type>, table: Table): Option<IntType> {
    FirstConcrete(IntegerTypeOf(left, table), IntegerTypeOf(right, table), expected)
  }

  /** Equality compares truth values when both operands are known to be boolean, and integers otherwise. */
  predicate ComparesTruth(left: Expr, right: Expr, table: Table) {
    ExprTypeOf(left, table) == Some(BooleanType) && ExprTypeOf(right, table) == Some(BooleanType)
  }

  // ----- expressions -----

  datatype Elaborated = Untyped | Elaborated(e: Expr, t: Type)

  /** Makes a value of the target type: as it is if the types agree, converted if both are integers. */
  function Coerced(r: Elaborated, target: Type): Elaborated {
    match r
    case Untyped => Untyped
    case Elaborated(e, t) =>
      if t == target then r
      else if t.IntegerType? && target.IntegerType? then Elaborated(Convert(t.it, target.it, e), target)
      else Untyped
  }

  /** `expected` is the type the context asks for, if it asks for one. */
  function Elaborate(e: Expr, expected: Option<Type>, table: Table): Elaborated
    decreases e, 2
  {
    match e
    case IntLiteral(_, n) =>
      (match Concrete(expected)
       case None => Untyped
       case Some(t) => Elaborated(IntLiteral(t, n), IntegerType(t)))
    case BoolLiteral(_) => Elaborated(e, if expected.Some? then expected.value else BooleanType)
    case Read(x, path) =>
      (match PlaceType(table, x, path)
       case None => Untyped
       case Some(t) => if expected.None? then Elaborated(e, t) else Coerced(Elaborated(e, t), expected.value))
    case Convert(_, to, operand) => ElaborateConversion(e, to, operand, table)
    case Arith(op, _, left, right) =>
      (match OperationType(left, right, expected, table)
       case None => Untyped
       case Some(t) => ElaborateInteger(e, t, left, right, table))
    case Compare(_, _, left, right) => ElaborateComparison(e, left, right, expected, table)
    case SameBool(_, left, right) => ElaborateComparison(e, left, right, expected, table)
    case And(left, right) => ElaborateLogic(e, left, right, table)
    case Or(left, right) => ElaborateLogic(e, left, right, table)
    case Not(operand) =>
      (match Elaborate(operand, None, table)
       case Untyped => Untyped
       case Elaborated(c, t) => if t == BooleanType then Elaborated(Not(c), BooleanType) else Untyped)
    case Negate(_, operand) => ElaborateSign(e, operand, expected, table)
    case BitNot(_, operand) => ElaborateSign(e, operand, expected, table)
  }

  /** An explicit conversion gives a literal its type directly. */
  function ElaborateConversion(e: Expr, to: IntType, operand: Expr, table: Table): Elaborated
    requires e.Convert? && operand == e.operand
    decreases e, 0
  {
    if operand.IntLiteral? then Elaborated(Convert(to, to, IntLiteral(to, operand.value)), IntegerType(to))
    else if operand.BoolLiteral? then Elaborated(operand, IntegerType(to))
    else
      match Elaborate(operand, None, table)
      case Untyped => Untyped
      case Elaborated(c, t) =>
        if t.IntegerType? then Elaborated(Convert(t.it, to, c), IntegerType(to)) else Untyped
  }

  /** Both operands of an integer operator or comparison, coerced to the operation type. */
  function ElaborateInteger(e: Expr, t: IntType, left: Expr, right: Expr, table: Table): Elaborated
    requires (e.Arith? || e.Compare? || e.SameBool?) && left == e.left && right == e.right
    decreases e, 0
  {
    var l := Coerced(Elaborate(left, Some(IntegerType(t)), table), IntegerType(t));
    var r := Coerced(Elaborate(right, Some(IntegerType(t)), table), IntegerType(t));
    if l.Untyped? || r.Untyped? then Untyped
    else
      match e
      case Arith(op, _, _, _) => Elaborated(Arith(op, t, l.e, r.e), IntegerType(t))
      case Compare(cmp, _, _, _) => Elaborated(Compare(cmp, t, l.e, r.e), BooleanType)
      case SameBool(negated, _, _) =>
        Elaborated(Compare(if negated then NotEqual else Equal, t, l.e, r.e), BooleanType)
  }

  function ElaborateComparison(e: Expr, left: Expr, right: Expr, expected: Option<Type>, table: Table): Elaborated
    requires (e.Compare? || e.SameBool?) && left == e.left && right == e.right
    decreases e, 1
  {
    if (e.SameBool? || e.cmp == Equal || e.cmp == NotEqual) && ComparesTruth(left, right, table) then
      var l, r := Elaborate(left, Some(BooleanType), table), Elaborate(right, Some(BooleanType), table);
      if l.Untyped? || r.Untyped? then Untyped
      else Elaborated(SameBool(if e.SameBool? then e.negated else e.cmp == NotEqual, l.e, r.e), BooleanType)
    else
      match OperationType(left, right, expected, table)
      case None => Untyped
      case Some(t) => ElaborateInteger(e, t, left, right, table)
  }

  /** Both operands of a short-circuit operator must come out boolean. */
  function ElaborateLogic(e: Expr, left: Expr, right: Expr, table: Table): Elaborated
    requires (e.And? || e.Or?) && left == e.left && right == e.right
    decreases e, 0
  {
    var l, r := Elaborate(left, Some(BooleanType), table), Elaborate(right, Some(BooleanType), table);
    if l.Untyped? || r.Untyped? || l.t != BooleanType || r.t != BooleanType then Untyped
    else Elaborated(if e.And? then And(l.e, r.e) else Or(l.e, r.e), BooleanType)
  }

  function ElaborateSign(e: Expr, operand: Expr, expected: Option<Type>, table: Table): Elaborated
    requires (e.Negate? || e.BitNot?) && operand == e.operand
    decreases e, 0
  {
    match FirstConcrete(IntegerTypeOf(operand, table), None, expected)
    case None => Untyped
    case Some(t) =>
      match Elaborate(operand, Some(IntegerType(t)), table)
      case Untyped => Untyped
      case Elaborated(c, _) => Elaborated(if e.Negate? then Negate(t, c) else BitNot(t, c), IntegerType(t))
  }

  // ----- the table along statements -----

  function Entries(bindings: seq<BindingInfo>): (table: Table)
    ensures |table| == |bindings|
    ensures forall i :: 0 <= i < |table| ==> table[i] == TypedName(bindings[i].name, bindings[i].t)
  {
    seq(|bindings|, i requires 0 <= i < |bindings| => TypedName(bindings[i].name, bindings[i].t))
  }

  /** The locals a statement leaves in the table: match arms always drop theirs, other blocks only if `pops`. */
  function Left(stmt: Stmt, pops: bool): Table
    decreases stmt
  {
    match stmt
    case Declare(x, t, _) => [TypedName(x, t)]
    case If(_, thenBlock, elseBlock) =>
      if pops then [] else LeftFrom(thenBlock, 0, pops) + LeftFrom(elseBlock, 0, pops)
    case While(_, body) => if pops then [] else LeftFrom(body, 0, pops)
    case Unsafe(body) => if pops then [] else LeftFrom(body, 0, pops)
    case _ => []
  }

  function LeftFrom(block: seq<Stmt>, i: nat, pops: bool): Table
    decreases block, |block| - i
  {
    if i >= |block| then []
    else Left(block[i], pops) + if Ends(block[i]) then [] else LeftFrom(block, i + 1, pops)
  }

  /** What a nested block leaves behind. */
  function LeftBy(block: seq<Stmt>, pops: bool): Table {
    if pops then [] else LeftFrom(block, 0, pops)
  }

  // ----- statements -----

  function ElaborateStatement(stmt: Stmt, table: Table, output: Option<Type>, pops: bool): Option<Stmt>
    decreases stmt
  {
    match stmt
    case Declare(_, _, _) => Some(stmt)
    case Assign(x, e) =>
      (match TypeAt(table, x)
       case None => None
       case Some(t) =>
         match Coerced(Elaborate(e, Some(t), table), t)
         case Untyped => None
         case Elaborated(c, _) => Some(Assign(x, c)))
    case Return(None) => if output.None? then Some(stmt) else None
    case Return(Some(e)) =>
      (match output
       case None => None
       case Some(t) =>
         match Coerced(Elaborate(e, Some(t), table), t)
         case Untyped => None
         case Elaborated(c, _) => Some(Return(Some(c))))
    case If(condition, thenBlock, elseBlock) =>
      (match ElaborateCondition(condition, table)
       case None => None
       case Some(c) =>
         match ElaborateFrom(thenBlock, 0, table, output, pops)
         case None => None
         case Some(yes) =>
           match ElaborateFrom(elseBlock, 0, table + LeftBy(thenBlock, pops), output, pops)
           case None => None
           case Some(no) => Some(If(c, yes, no)))
    case While(condition, body) =>
      (match ElaborateCondition(condition, table)
       case None => None
       case Some(c) =>
         match ElaborateFrom(body, 0, table, output, pops)
         case None => None
         case Some(b) => Some(While(c, b)))
    case Unsafe(body) =>
      (match ElaborateFrom(body, 0, table, output, pops)
       case None => None
       case Some(b) => Some(Unsafe(b)))
    case Match(_, scrutinee, cases) =>
      if cases == [] then None else
      match ElaborateScrutinee(scrutinee, table)
      case Untyped => None
      case Elaborated(c, t) =>
        match ElaborateCases(cases, 0, t, table, output, pops)
        case None => None
        case Some(arms) => Some(Match(t, c, arms))
  }

  /** A condition must come out boolean. */
  function ElaborateCondition(condition: Expr, table: Table): Option<Expr> {
    match Elaborate(condition, None, table)
    case Untyped => None
    case Elaborated(c, t) => if t == BooleanType then Some(c) else None
  }

  /** A scrutinee must have a type of its own. */
  function ElaborateScrutinee(scrutinee: Expr, table: Table): Elaborated {
    match ExprTypeOf(scrutinee, table)
    case None => Untyped
    case Some(t) => Coerced(Elaborate(scrutinee, Some(t), table), t)
  }

  /** The statements from `i` on; what follows a statement that ends every path is not looked at. */
  function ElaborateFrom(block: seq<Stmt>, i: nat, table: Table, output: Option<Type>, pops: bool)
    : (r: Option<seq<Stmt>>)
    ensures r.Some? && i <= |block| ==> |r.value| == |block| - i
    decreases block, |block| - i
  {
    if i >= |block| then Some([])
    else
      match ElaborateStatement(block[i], table, output, pops)
      case None => None
      case Some(c) =>
        if Ends(block[i]) then Some([c] + block[i + 1..])
        else
          match ElaborateFrom(block, i + 1, table + Left(block[i], pops), output, pops)
          case None => None
          case Some(rest) => Some([c] + rest)
  }

  function ElaborateCases(
    cases: seq<Case>, i: nat, t: Type, table: Table, output: Option<Type>, pops: bool): (r: Option<seq<Case>>)
    ensures r.Some? && i <= |cases| ==> |r.value| == |cases| - i
    decreases cases, |cases| - i
  {
    if i >= |cases| then Some([])
    else
      match ElaborateCase(cases[i], t, table, output, pops)
      case None => None
      case Some(c) =>
        match ElaborateCases(cases, i + 1, t, table, output, pops)
        case None => None
        case Some(rest) => Some([c] + rest)
  }

  /** An arm: its pattern must suit the type the scrutinee came out with. */
  function ElaborateCase(c: Case, t: Type, table: Table, output: Option<Type>, pops: bool): Option<Case>
    decreases c
  {
    match Analyze(t, c.pattern)
    case None => None
    case Some(info) =>
      match ElaborateFrom(c.body, 0, table + Entries(info.bindings), output, pops)
      case None => None
      case Some(body) => Some(Case(c.pattern, body))
  }

  function ParameterTable(parameters: seq<Parameter>): (table: Table)
    ensures |table| == |parameters|
    ensures forall i :: 0 <= i < |table| ==> table[i] == TypedName(parameters[i].name, parameters[i].t)
  {
    seq(|parameters|, i requires 0 <= i < |parameters| => TypedName(parameters[i].name, parameters[i].t))
  }

  function ElaborateFunction(
    parameters: seq<Parameter>, body: seq<Stmt>, output: Option<Type>, pops: bool): Option<seq<Stmt>>
  {
    ElaborateFrom(body, 0, ParameterTable(parameters), output, pops)
  }
}
