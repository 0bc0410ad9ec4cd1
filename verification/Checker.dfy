/**
 The flow-sensitive body checker, as a function: value facts per local, fall-through, match coverage, and the
 errors it reports.
 */
module Checker {
  import opened Integers
  import opened Options
  import opened Syntax
  import opened Patterns

  datatype Fact = Uninitialized | Initialized | Moved | MaybeMoved | MaybeUninitialized

  datatype CheckedLocal = CheckedLocal(name: string, t: Type, mutable: bool, fact: Fact, depth: nat)

  type Locals = seq<CheckedLocal>

  datatype Error =
    | UnknownName
    | MismatchedTypes
    | UseBeforeInitialization
    | UseAfterMove
    | PartialOwnedMove
    | WriteToImmutable
    | DuplicateDeclaration
    | InvalidPattern
    | UnreachablePattern
    | NonExhaustivePattern
    | MissingReturnPath

  datatype Typed = TypeError(error: Error) | Typed(t: Type)

  datatype Verdict = Refused(error: Error) | Accepted(locals: Locals, falls: bool)

  function NamesOf(locals: Locals): (names: seq<string>)
    ensures |names| == |locals|
    ensures forall i :: 0 <= i < |locals| ==> names[i] == locals[i].name
  {
    seq(|locals|, i requires 0 <= i < |locals| => locals[i].name)
  }

  function FactsOf(locals: Locals): (facts: seq<Fact>)
    ensures |facts| == |locals|
    ensures forall i :: 0 <= i < |locals| ==> facts[i] == locals[i].fact
  {
    seq(|locals|, i requires 0 <= i < |locals| => locals[i].fact)
  }

  // ----- facts -----

  /** What is known where two paths meet. */
  function MergeFact(a: Fact, b: Fact): Fact {
    if a == b then a
    else if a == Moved || b == Moved || a == MaybeMoved || b == MaybeMoved then MaybeMoved
    else MaybeUninitialized
  }

  /** Overwrites the facts of the first locals by those of a snapshot. */
  function Restored(locals: Locals, facts: seq<Fact>): (r: Locals)
    ensures |r| == |locals|
    ensures forall i :: 0 <= i < |locals| ==>
              r[i] == if i < |facts| then locals[i].(fact := facts[i]) else locals[i]
  {
    seq(|locals|, i requires 0 <= i < |locals| => if i < |facts| then locals[i].(fact := facts[i]) else locals[i])
  }

  /** Overwrites the facts of the first locals by the merge of two snapshots. */
  function Merged(locals: Locals, a: seq<Fact>, b: seq<Fact>): (r: Locals)
    ensures |r| == |locals|
    ensures forall i :: 0 <= i < |locals| ==>
              r[i] == if i < |a| && i < |b| then locals[i].(fact := MergeFact(a[i], b[i])) else locals[i]
  {
    seq(|locals|, i requires 0 <= i < |locals| =>
      if i < |a| && i < |b| then locals[i].(fact := MergeFact(a[i], b[i])) else locals[i])
  }

  // ----- expressions -----

  function CheckRead(locals: Locals, x: string, path: seq<nat>): Typed {
    match Newest(NamesOf(locals), x)
    case None => TypeError(UnknownName)
    case Some(i) =>
      match locals[i].fact
      case Moved => TypeError(UseAfterMove)
      case MaybeMoved => TypeError(UseAfterMove)
      case Uninitialized => TypeError(UseBeforeInitialization)
      case MaybeUninitialized => TypeError(UseBeforeInitialization)
      case Initialized =>
        match FieldType(locals[i].t, path)
        case None => TypeError(MismatchedTypes)
        case Some(t) => Typed(t)
  }

  /** Requires an already checked operand to have type `t`. */
  function Expect(r: Typed, t: Type, result: Type): Typed {
    match r
    case TypeError(e) => r
    case Typed(u) => if u == t then Typed(result) else TypeError(MismatchedTypes)
  }

  function CheckPair(a: Typed, b: Typed, t: Type, result: Type): Typed {
    match Expect(a, t, result)
    case TypeError(e) => TypeError(e)
    case Typed(_) => Expect(b, t, result)
  }

  /** The types of conditions and of the operands of logical operators. */
  predicate BoolConvertible(t: Type) {
    t.BooleanType? || t.IntegerType?
  }

  /** Requires an already checked expression to have a type that can stand for a truth value. */
  function ExpectTruth(r: Typed): Typed {
    match r
    case TypeError(e) => r
    case Typed(u) => if BoolConvertible(u) then Typed(BooleanType) else TypeError(MismatchedTypes)
  }

  function CheckTruths(a: Typed, b: Typed): Typed {
    match ExpectTruth(a)
    case TypeError(e) => TypeError(e)
    case Typed(_) => ExpectTruth(b)
  }

  /** A literal is given the target type of a conversion directly, whatever its value. */
  function CheckConversion(from: IntType, to: IntType, operand: Expr, checked: Typed): Typed {
    if operand.IntLiteral? then
      if from == to == operand.t then Typed(IntegerType(to)) else TypeError(MismatchedTypes)
    else Expect(checked, IntegerType(from), IntegerType(to))
  }

  function TypeOf(e: Expr, locals: Locals): Typed {
    match e
    case IntLiteral(t, n) => if InRange(n, t) then Typed(IntegerType(t)) else TypeError(MismatchedTypes)
    case BoolLiteral(_) => Typed(BooleanType)
    case Read(x, path) => CheckRead(locals, x, path)
    case Convert(from, to, operand) => CheckConversion(from, to, operand, TypeOf(operand, locals))
    case Arith(_, t, left, right) =>
      CheckPair(TypeOf(left, locals), TypeOf(right, locals), IntegerType(t), IntegerType(t))
    case Compare(_, t, left, right) =>
      CheckPair(TypeOf(left, locals), TypeOf(right, locals), IntegerType(t), BooleanType)
    case SameBool(_, left, right) => CheckPair(TypeOf(left, locals), TypeOf(right, locals), BooleanType, BooleanType)
    case And(left, right) => CheckTruths(TypeOf(left, locals), TypeOf(right, locals))
    case Or(left, right) => CheckTruths(TypeOf(left, locals), TypeOf(right, locals))
    case Not(operand) => ExpectTruth(TypeOf(operand, locals))
    case Negate(t, operand) => Expect(TypeOf(operand, locals), IntegerType(t), IntegerType(t))
    case BitNot(t, operand) => Expect(TypeOf(operand, locals), IntegerType(t), IntegerType(t))
  }

  /** Moves out of the local an expression names, unless it is the destination; parts of values cannot be moved. */
  function Transfer(e: Expr, locals: Locals, dest: Option<nat>): Verdict {
    if !e.Read? then Accepted(locals, true) else
    match Newest(NamesOf(locals), e.name)
    case None => Accepted(locals, true)
    case Some(i) =>
      if e.path != [] then
        match FieldType(locals[i].t, e.path)
        case None => Refused(MismatchedTypes)
        case Some(t) => if MoveOnly(t) then Refused(PartialOwnedMove) else Accepted(locals, true)
      else if dest == Some(i) || !MoveOnly(locals[i].t) then Accepted(locals, true)
      else if locals[i].fact != Initialized then Refused(UseAfterMove)
      else Accepted(locals[i := locals[i].(fact := Moved)], true)
  }

  // ----- statements -----

  predicate DeclaredAt(locals: Locals, x: string, depth: nat) {
    exists i :: 0 <= i < |locals| && locals[i].depth == depth && locals[i].name == x
  }

  function CheckAssign(x: string, e: Expr, locals: Locals): Verdict {
    match Newest(NamesOf(locals), x)
    case None => Refused(UnknownName)
    case Some(i) =>
      if !locals[i].mutable && locals[i].fact == Initialized then Refused(WriteToImmutable) else
      match TypeOf(e, locals)
      case TypeError(error) => Refused(error)
      case Typed(t) =>
        if t != locals[i].t then Refused(MismatchedTypes) else
        match Transfer(e, locals, Some(i))
        case Refused(error) => Refused(error)
        case Accepted(after, _) =>
          if i < |after| then Accepted(after[i := after[i].(fact := Initialized)], true) else Refused(UnknownName)
  }

  /** `output` is the result type of the function, if it has one. */
  function CheckReturn(result: Option<Expr>, locals: Locals, output: Option<Type>): Verdict {
    match (result, output)
    case (None, None) => Accepted(locals, false)
    case (None, Some(_)) => Refused(MismatchedTypes)
    case (Some(_), None) => Refused(MismatchedTypes)
    case (Some(e), Some(t)) =>
      match TypeOf(e, locals)
      case TypeError(error) => Refused(error)
      case Typed(u) =>
        if u != t then Refused(MismatchedTypes)
        else if !MoveOnly(t) then Accepted(locals, false)
        else
          match Transfer(e, locals, None)
          case Refused(error) => Refused(error)
          case Accepted(after, _) => Accepted(after, false)
  }

  /** The locals after two branches that started together. */
  function AfterBranches(before: Locals, a: Locals, aFalls: bool, b: Locals, bFalls: bool): Locals {
    if aFalls && bFalls then Merged(before, FactsOf(a), FactsOf(b))
    else if aFalls then Restored(before, FactsOf(a))
    else if bFalls then Restored(before, FactsOf(b))
    else before
  }

  /** The locals a pattern introduces: initialised, immutable, at the depth of the arm's body. */
  function BoundLocals(bindings: seq<BindingInfo>, depth: nat): (r: Locals)
    ensures |r| == |bindings|
    ensures forall i :: 0 <= i < |r| ==>
              r[i] == CheckedLocal(bindings[i].name, bindings[i].t, false, Initialized, depth)
  {
    seq(|bindings|, i requires 0 <= i < |bindings| =>
      CheckedLocal(bindings[i].name, bindings[i].t, false, Initialized, depth))
  }

  /** What the cases so far cover: everything, or these constructors. */
  datatype Coverage = Coverage(all: bool, constructors: set<nat>)

  function ConstructorCount(t: Type): nat {
    if t.EnumType? then |t.constructors| else 0
  }

  predicate Exhaustive(t: Type, c: Coverage) {
    c.all || (ConstructorCount(t) != 0 && |c.constructors| == ConstructorCount(t))
  }

  /** Whether a case can still match something, given what is covered. */
  predicate Reachable(c: Coverage, info: Info) {
    !c.all && !(info.tag.Some? && info.covered && info.tag.value in c.constructors)
  }

  function Cover(c: Coverage, info: Info): Coverage {
    Coverage(c.all || info.irrefutable,
             if info.tag.Some? && info.covered then c.constructors + {info.tag.value} else c.constructors)
  }

  function CheckStatement(stmt: Stmt, locals: Locals, depth: nat, output: Option<Type>): (r: Verdict)
    decreases stmt
  {
    match stmt
    case Declare(x, t, mutable) =>
      if DeclaredAt(locals, x, depth) then Refused(DuplicateDeclaration)
      else Accepted(locals + [CheckedLocal(x, t, mutable, Uninitialized, depth)], true)
    case Assign(x, e) => CheckAssign(x, e, locals)
    case Return(result) => CheckReturn(result, locals, output)
    case If(c, thenBlock, elseBlock) =>
      if TypeOf(c, locals).TypeError? then Refused(TypeOf(c, locals).error)
      else if !BoolConvertible(TypeOf(c, locals).t) then Refused(MismatchedTypes)
      else
        (match CheckBlock(thenBlock, locals, depth, output)
         case Refused(error) => Refused(error)
         case Accepted(a, aFalls) =>
           match CheckBlock(elseBlock, locals, depth, output)
           case Refused(error) => Refused(error)
           case Accepted(b, bFalls) => Accepted(AfterBranches(locals, a, aFalls, b, bFalls), aFalls || bFalls))
    case While(c, body) =>
      if TypeOf(c, locals).TypeError? then Refused(TypeOf(c, locals).error)
      else if !BoolConvertible(TypeOf(c, locals).t) then Refused(MismatchedTypes)
      else
        (match CheckBlock(body, locals, depth, output)
         case Refused(error) => Refused(error)
         case Accepted(a, falls) =>
           Accepted(if falls then Merged(locals, FactsOf(locals), FactsOf(a)) else locals, true))
    case Unsafe(body) => CheckBlock(body, locals, depth, output)
    case Match(t, scrutinee, cases) =>
      if TypeOf(scrutinee, locals).TypeError? then Refused(TypeOf(scrutinee, locals).error)
      else if TypeOf(scrutinee, locals).t != t then Refused(MismatchedTypes)
      else CheckCases(t, cases, 0, Coverage(false, {}), None, locals, depth, output)
  }

  /** A nested block: one level deeper, and its own locals end with it. */
  function CheckBlock(block: seq<Stmt>, locals: Locals, depth: nat, output: Option<Type>): (r: Verdict)
    decreases block, |block| + 1
  {
    match CheckFrom(block, 0, locals, depth + 1, output)
    case Refused(error) => Refused(error)
    case Accepted(after, falls) => Accepted(if |locals| <= |after| then after[..|locals|] else after, falls)
  }

  /** Statements are checked until one ends the path. */
  function CheckFrom(block: seq<Stmt>, i: nat, locals: Locals, depth: nat, output: Option<Type>): (r: Verdict)
    decreases block, |block| - i
  {
    if i >= |block| then Accepted(locals, true)
    else
      match CheckStatement(block[i], locals, depth, output)
      case Refused(error) => Refused(error)
      case Accepted(after, falls) => if falls then CheckFrom(block, i + 1, after, depth, output) else Accepted(after, false)
  }

  /** `merged` holds the facts where the arms that fell through so far meet. */
  function CheckCases(
    t: Type, cases: seq<Case>, i: nat, coverage: Coverage, merged: Option<seq<Fact>>, locals: Locals, depth: nat,
    output: Option<Type>): (r: Verdict)
    decreases cases, |cases| - i
  {
    if i >= |cases| then
      if !Exhaustive(t, coverage) then Refused(NonExhaustivePattern)
      else Accepted(if merged.Some? then Restored(locals, merged.value) else locals, merged.Some?)
    else if coverage.all then Refused(UnreachablePattern)
    else
      match Analyze(t, cases[i].pattern)
      case None => Refused(InvalidPattern)
      case Some(info) =>
        if !Reachable(coverage, info) then Refused(UnreachablePattern) else
        match CheckCase(cases[i], info, locals, depth, output)
        case Refused(error) => Refused(error)
        case Accepted(after, falls) =>
          CheckCases(t, cases, i + 1, Cover(coverage, info), Gathered(merged, FactsOf(after), falls), locals, depth, output)
  }

  /** Adds the facts of one more arm to those of the arms that fell through before. */
  function Gathered(merged: Option<seq<Fact>>, facts: seq<Fact>, falls: bool): Option<seq<Fact>> {
    if !falls then merged
    else if merged.None? then Some(facts)
    else Some(MergeFacts(merged.value, facts))
  }

  function MergeFacts(a: seq<Fact>, b: seq<Fact>): (r: seq<Fact>)
    ensures |a| == |b| ==> |r| == |a| && forall i :: 0 <= i < |r| ==> r[i] == MergeFact(a[i], b[i])
  {
    if |a| == |b| then seq(|a|, i requires 0 <= i < |a| => MergeFact(a[i], b[i])) else b
  }

  function CheckCase(c: Case, info: Info, locals: Locals, depth: nat, output: Option<Type>): (r: Verdict)
    decreases c
  {
    match CheckBlock(c.body, locals + BoundLocals(info.bindings, depth + 1), depth, output)
    case Refused(error) => Refused(error)
    case Accepted(after, falls) => Accepted(if |locals| <= |after| then after[..|locals|] else after, falls)
  }

  // ----- whole functions -----

  function ParameterLocals(parameters: seq<Parameter>): (r: Locals)
    ensures |r| == |parameters|
    ensures forall i :: 0 <= i < |r| ==>
              r[i] == CheckedLocal(parameters[i].name, parameters[i].t, parameters[i].mutable, Initialized, 0)
  {
    seq(|parameters|, i requires 0 <= i < |parameters| =>
      CheckedLocal(parameters[i].name, parameters[i].t, parameters[i].mutable, Initialized, 0))
  }

  predicate DistinctNames(parameters: seq<Parameter>) {
    forall i, j :: 0 <= i < j < |parameters| ==> parameters[i].name != parameters[j].name
  }

  /** Whether a function is accepted, or the error it is refused with. */
  function CheckFunction(parameters: seq<Parameter>, body: seq<Stmt>, output: Option<Type>): Option<Error> {
    if !DistinctNames(parameters) then Some(DuplicateDeclaration) else
    match CheckBlock(body, ParameterLocals(parameters), 0, output)
    case Refused(error) => Some(error)
    case Accepted(_, falls) => if falls && output.Some? then Some(MissingReturnPath) else None
  }
}
