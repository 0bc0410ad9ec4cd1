/**
 The emitter itself: builder state and a table of typed locals, updated in place. Each method is proved to fail
 exactly when `Elaboration` refuses or `Lowering` fails, and otherwise to build what `Lowering` says for the
 elaborated code.
 */
module Emitter {
  import opened Integers
  import opened MachineIntegers
  import opened Options
  import opened Syntax
  import opened Patterns
  import opened Machine
  import opened Lowering
  import opened LoweringFrame
  import opened StatementFrame
  import opened PatternSimulation
  import opened StatementSimulation
  import opened FunctionSimulation
  import opened Termination
  import opened Elaboration
  import opened Compilation

  datatype TypedLocal = TypedLocal(name: string, cell: nat, t: Type)

  datatype TypedOperand = TypedOperand(value: Operand, t: Type)

  function Places(locals: seq<TypedLocal>): (r: seq<Local>)
    ensures |r| == |locals|
    ensures forall i :: 0 <= i < |r| ==> r[i] == Local(locals[i].name, locals[i].cell)
  {
    seq(|locals|, i requires 0 <= i < |locals| => Local(locals[i].name, locals[i].cell))
  }

  function Types(locals: seq<TypedLocal>): (r: Elaboration.Table)
    ensures |r| == |locals|
    ensures forall i :: 0 <= i < |r| ==> r[i] == TypedName(locals[i].name, locals[i].t)
  {
    seq(|locals|, i requires 0 <= i < |locals| => TypedName(locals[i].name, locals[i].t))
  }

  class FunctionEmitter {
    var blocks: seq<Block>
    var insertion: nat
    var registers: nat
    var locals: seq<TypedLocal>

    ghost predicate Valid()
      reads this
    {
      0 < insertion < |blocks| && blocks[0].end.None?
    }

    /** The abstract builder state. */
    ghost function Now(): (s: State)
      requires Valid()
      reads this
    {
      State(blocks, insertion, registers, Places(locals))
    }

    /** The names and types of the locals. */
    function Table(): Table
      reads `locals
    {
      Types(locals)
    }

    /** A new function: an allocation block, and an entry block at which code is inserted. */
    constructor (parameters: nat)
      ensures Valid() && Now() == StartFunction(parameters) && Table() == []
    {
      blocks := [Block([], None), Block([], None)];
      insertion := 1;
      registers := parameters;
      locals := [];
    }

    // ----- the builder -----

    method AppendBlock() returns (b: nat)
      requires Valid()
      modifies `blocks, `insertion, `registers
      ensures Valid() && Now() == NewBlock(old(Now())) && b == |old(blocks)|
    {
      b := |blocks|;
      blocks := blocks + [Block([], None)];
    }

    method PositionAtEnd(b: nat)
      requires Valid() && 0 < b < |blocks|
      modifies `blocks, `insertion, `registers
      ensures Valid() && Now() == Position(old(Now()), b)
    {
      insertion := b;
    }

    method Build(i: Instruction)
      requires Valid()
      modifies `blocks, `insertion, `registers
      ensures Valid() && Now() == Put(old(Now()), i)
    {
      blocks := blocks[insertion := Appended(blocks[insertion], i)];
    }

    /** Builds an instruction whose result goes to the next register. */
    method BuildCast(op: CastOp, from: nat, to: nat, a: Operand) returns (r: Operand)
      requires Valid()
      modifies `blocks, `insertion, `registers
      ensures Valid() && Now() == Lowering.Define(old(Now()), Cast(old(registers), op, from, to, a))
      ensures r == Register(old(registers))
    {
      r := Register(registers);
      Build(Cast(registers, op, from, to, a));
      registers := registers + 1;
    }

    method BuildBinary(op: BinaryOp, a: Operand, b: Operand) returns (r: Operand)
      requires Valid()
      modifies `blocks, `insertion, `registers
      ensures Valid() && Now() == Lowering.Define(old(Now()), Binary(old(registers), op, a, b))
      ensures r == Register(old(registers))
    {
      r := Register(registers);
      Build(Binary(registers, op, a, b));
      registers := registers + 1;
    }

    method BuildCompare(p: MachineIntegers.Predicate, a: Operand, b: Operand) returns (r: Operand)
      requires Valid()
      modifies `blocks, `insertion, `registers
      ensures Valid() && Now() == Lowering.Define(old(Now()), ICmp(old(registers), p, a, b))
      ensures r == Register(old(registers))
    {
      r := Register(registers);
      Build(ICmp(registers, p, a, b));
      registers := registers + 1;
    }

    method BuildLoad(place: Place) returns (r: Operand)
      requires Valid()
      modifies `blocks, `insertion, `registers
      ensures Valid() && Now() == Lowering.Define(old(Now()), Load(old(registers), place))
      ensures r == Register(old(registers))
    {
      r := Register(registers);
      Build(Load(registers, place));
      registers := registers + 1;
    }

    method BuildLoadTag(place: Place) returns (r: Operand)
      requires Valid()
      modifies `blocks, `insertion, `registers
      ensures Valid() && Now() == Lowering.Define(old(Now()), LoadTag(old(registers), place))
      ensures r == Register(old(registers))
    {
      r := Register(registers);
      Build(LoadTag(registers, place));
      registers := registers + 1;
    }

    method BuildEnd(t: Terminator)
      requires Valid()
      modifies `blocks, `insertion, `registers
      ensures Valid() && Now() == End(old(Now()), t)
    {
      blocks := blocks[insertion := blocks[insertion].(end := Some(t))];
    }

    predicate HasTerminator()
      requires Valid()
      reads this
    {
      blocks[insertion].end.Some?
    }

    /** Reserves a stack cell in the allocation block. */
    method AllocateStack() returns (cell: nat)
      requires Valid()
      modifies `blocks, `insertion, `registers
      ensures Valid() && Now() == Allocate(old(Now())) && cell == Cells(old(Now()))
    {
      cell := |blocks[0].body|;
      blocks := blocks[0 := Appended(blocks[0], Alloca(cell))];
    }

    method AddLocal(x: string, t: Type) returns (cell: nat)
      requires Valid()
      modifies `blocks, `locals
      ensures Valid() && Now() == Lowering.AddLocal(old(Now()), x) && cell == Cells(old(Now()))
      ensures Table() == old(Table()) + [TypedName(x, t)]
    {
      cell := |blocks[0].body|;
      blocks := blocks[0 := Appended(blocks[0], Alloca(cell))];
      locals := locals + [TypedLocal(x, cell, t)];
      assert Places(locals) == old(Places(locals)) + [Local(x, cell)];
    }

    /** Searches the local table from its newest entry. */
    method FindLocal(x: string) returns (r: Option<nat>)
      ensures r == Newest(LocalNames(Places(locals)), x)
      ensures TypeAt(Table(), x) == if r.Some? then Some(locals[r.value].t) else None
    {
      var i := |locals|;
      ghost var names := LocalNames(Places(locals));
      assert NamesIn(Table()) == names;
      assert names[..i] == names;
      while i > 0
        invariant 0 <= i <= |locals|
        invariant Newest(names, x) == Newest(names[..i], x)
      {
        i := i - 1;
        assert names[..i + 1][..i] == names[..i];
        if locals[i].name == x {
          return Some(i);
        }
      }
      return None;
    }

    /** Branches on a condition to one of two new blocks, and continues in the first. */
    method OpenBranches(condition: Operand) returns (elseStart: nat)
      requires Valid()
      modifies `blocks, `insertion, `registers
      ensures Valid() && Now() == OpenIf(old(Now()), condition) && elseStart == old(|blocks|) + 1 < |blocks|
    {
      hide Places;
      var thenStart := AppendBlock();
      elseStart := AppendBlock();
      BuildEnd(CondBr(condition, thenStart, elseStart));
      PositionAtEnd(thenStart);
    }

    // ----- expressions -----

    method EmitTrapIf(condition: Operand)
      requires Valid()
      modifies `blocks, `insertion, `registers
      ensures Valid() && Now() == TrapIf(old(Now()), condition)
    {
      hide Places;
      var next := OpenBranches(condition);
      Build(TrapCall);
      BuildEnd(Unreachable);
      PositionAtEnd(next);
    }

    method EmitCheckedArithmetic(op: ArithOp, t: IntType, a: Operand, b: Operand) returns (r: Operand)
      requires Valid()
      modifies `blocks, `insertion, `registers
      ensures Valid() && Emitted(Now(), r) == EmitChecked(old(Now()), op, t, a, b)
    {
      hide Lowering.Define, TrapIf, Places;
      var wide := WideBits(t.bits);
      var wideLeft := BuildCast(Extension(t), t.bits, wide, a);
      var wideRight := BuildCast(Extension(t), t.bits, wide, b);
      var wideResult := BuildBinary(WideOp(op), wideLeft, wideRight);
      r := EmitNarrowed(t, wide, wideResult);
    }

    /** Truncates a double-width result, and traps if that loses anything. */
    method EmitNarrowed(t: IntType, wide: nat, wideResult: Operand) returns (r: Operand)
      requires Valid()
      modifies `blocks, `insertion, `registers
      ensures Valid() && r == Register(old(registers))
      ensures var r, s := old(registers), old(Now());
              var s4 := Lowering.Define(s, Cast(r, Trunc, wide, t.bits, wideResult));
              var s5 := Lowering.Define(s4, Cast(r + 1, Extension(t), t.bits, wide, Register(r)));
              var s6 := Lowering.Define(s5, ICmp(r + 2, NE, wideResult, Register(r + 1)));
              Now() == TrapIf(s6, Register(r + 2))
    {
      hide Lowering.Define, TrapIf, Places;
      r := BuildCast(Trunc, wide, t.bits, wideResult);
      var roundTrip := BuildCast(Extension(t), t.bits, wide, r);
      var overflow := BuildCompare(NE, wideResult, roundTrip);
      EmitTrapIf(overflow);
    }

    method EmitShift(op: ArithOp, t: IntType, a: Operand, b: Operand) returns (r: Operand)
      requires Valid()
      modifies `blocks, `insertion, `registers
      ensures Valid() && Emitted(Now(), r) == Lowering.EmitShift(old(Now()), op, t, a, b)
    {
      hide Lowering.Define, TrapIf;
      var invalid := BuildCompare(UGE, b, Constant(Bits(t.bits, t.bits)));
      EmitTrapIf(invalid);
      r := BuildBinary(ShiftOp(op, t), a, b);
    }

    method EmitDivisionOrRemainder(op: ArithOp, t: IntType, a: Operand, b: Operand) returns (r: Operand)
      requires Valid()
      modifies `blocks, `insertion, `registers
      ensures Valid() && Emitted(Now(), r) == EmitQuotient(old(Now()), op, t, a, b)
    {
      hide Lowering.Define, TrapIf;
      var isZero := BuildCompare(EQ, b, Constant(Bits(t.bits, 0)));
      EmitTrapIf(isZero);
      if t.signed {
        var isMinimum := BuildCompare(EQ, a, Constant(Bits(t.bits, Pow2(t.bits - 1))));
        var isMinusOne := BuildCompare(EQ, b, Constant(Bits(t.bits, Pow2(t.bits) - 1)));
        var invalidPair := BuildBinary(IAnd, isMinimum, isMinusOne);
        EmitTrapIf(invalidPair);
      }
      r := BuildBinary(QuotientOp(op, t), a, b);
    }

    method EmitArithmetic(op: ArithOp, t: IntType, a: Operand, b: Operand) returns (r: Operand)
      requires Valid()
      modifies `blocks, `insertion, `registers
      ensures Valid() && Emitted(Now(), r) == EmitArith(old(Now()), op, t, a, b)
    {
      hide Lowering.Define, TrapIf, EmitQuotient, EmitChecked, Lowering.EmitShift;
      if op == Divide || op == Modulo {
        r := EmitDivisionOrRemainder(op, t, a, b);
      } else if op == ArithOp.Add || op == Subtract || op == Multiply {
        r := EmitCheckedArithmetic(op, t, a, b);
      } else if op == ShiftLeft || op == ShiftRight {
        r := EmitShift(op, t, a, b);
      } else {
        r := BuildBinary(BitOp(op), a, b);
      }
    }

    /** What a method that emits a value from `before` has done, given the elaborated expression. */
    ghost predicate Emits(r: Option<TypedOperand>, c: Elaborated, before: State)
      reads this
    {
      Valid() && match c
                 case Untyped => r.None?
                 case Elaborated(core, t) =>
                   match EmitExpr(before, core)
                   case Failed => r.None?
                   case Emitted(s, a) => Now() == s && r == Some(TypedOperand(a, t))
    }

    /** Makes an emitted value one of the target type, if it can be. */
    method Coerce(value: TypedOperand, target: Type, ghost c: Elaborated, ghost before: State)
      returns (r: Option<TypedOperand>)
      requires Emits(Some(value), c, before)
      modifies `blocks, `insertion, `registers
      ensures Emits(r, Coerced(c, target), before)
    {
      hide Lowering.Define;
      if value.t == target {
        return Some(value);
      }
      if !value.t.IntegerType? || !target.IntegerType? {
        return None;
      }
      var a := BuildConversion(value.t.it, target.it, value.value);
      r := Some(TypedOperand(a, target));
    }

    method BuildConversion(from: IntType, to: IntType, a: Operand) returns (r: Operand)
      requires Valid()
      modifies `blocks, `insertion, `registers
      ensures Valid() && Emitted(Now(), r) == EmitConversion(old(Now()), from, to, a)
    {
      hide Lowering.Define;
      match ConversionCast(from, to) {
        case None => r := a;
        case Some(op) => r := BuildCast(op, from.bits, to.bits, a);
      }
    }

    /** Emits an expression; `expected` is the type the context asks for, if it asks for one. */
    method EmitExpression(e: Expr, expected: Option<Type>) returns (r: Option<TypedOperand>)
      requires Valid() && Open(Now())
      modifies `blocks, `insertion, `registers
      ensures Emits(r, Elaborate(e, expected, Table()), old(Now()))
      decreases e, 2
    {
      hide Lowering.Define, EmitArith, OpenLogic, CloseLogic;
      match e
      case IntLiteral(_, n) =>
        var t := Concrete(expected);
        if t.None? {
          return None;
        }
        r := Some(TypedOperand(Constant(FromInteger(n, t.value)), IntegerType(t.value)));
      case BoolLiteral(flag) =>
        r := Some(TypedOperand(Constant(Bool(flag)), if expected.Some? then expected.value else BooleanType));
      case Read(x, path) => r := EmitLocal(x, path, expected);
      case Convert(_, to, operand) => r := EmitConversionOf(e, to, operand);
      case Not(operand) => r := EmitNot(e, operand);
      case Negate(_, operand) => r := EmitSign(e, operand, expected);
      case BitNot(_, operand) => r := EmitSign(e, operand, expected);
      case Arith(_, _, left, right) => r := EmitOperator(e, left, right, expected);
      case Compare(_, _, left, right) => r := EmitOperator(e, left, right, expected);
      case SameBool(_, left, right) => r := EmitOperator(e, left, right, expected);
      case And(left, right) => r := EmitLogical(e, left, right, true, expected);
      case Or(left, right) => r := EmitLogical(e, left, right, false, expected);
    }

    /** Loads the newest local of the name, or a field of it. */
    method EmitLocal(x: string, path: seq<nat>, expected: Option<Type>) returns (r: Option<TypedOperand>)
      requires Valid()
      modifies `blocks, `insertion, `registers
      ensures Emits(r, Elaborate(Read(x, path), expected, Table()), old(Now()))
    {
      hide Lowering.Define, FieldType;
      ghost var before := Now();
      var i := FindLocal(x);
      if i.None? {
        return None;
      }
      var t := FieldType(locals[i.value].t, path);
      if t.None? {
        return None;
      }
      var a := BuildLoad(Place(locals[i.value].cell, path));
      r := Some(TypedOperand(a, t.value));
      if expected.Some? {
        r := Coerce(r.value, expected.value, Elaborated(Read(x, path), t.value), before);
      }
    }

    method EmitConversionOf(e: Expr, to: IntType, operand: Expr) returns (r: Option<TypedOperand>)
      requires Valid() && Open(Now()) && e.Convert? && to == e.to && operand == e.operand
      modifies `blocks, `insertion, `registers
      ensures Emits(r, ElaborateConversion(e, to, operand, Table()), old(Now()))
      decreases e, 0
    {
      hide Lowering.Define;
      if operand.IntLiteral? {
        assert EmitExpr(Now(), IntLiteral(to, operand.value)) == Emitted(Now(),
                                                                         Constant(FromInteger(operand.value, to)));
        assert ConversionCast(to, to) == None;
        return Some(TypedOperand(Constant(FromInteger(operand.value, to)), IntegerType(to)));
      }
      if operand.BoolLiteral? {
        return Some(TypedOperand(Constant(Bool(operand.flag)), IntegerType(to)));
      }
      var value := EmitExpression(operand, None);
      if value.None? || !value.value.t.IntegerType? {
        return None;
      }
      var a := BuildConversion(value.value.t.it, to, value.value.value);
      r := Some(TypedOperand(a, IntegerType(to)));
    }

    method EmitNot(e: Expr, operand: Expr) returns (r: Option<TypedOperand>)
      requires Valid() && Open(Now()) && e.Not? && operand == e.operand
      modifies `blocks, `insertion, `registers
      ensures Emits(r, Elaborate(e, None, Table()), old(Now()))
      decreases e, 0
    {
      hide Lowering.Define;
      var value := EmitExpression(operand, None);
      if value.None? || value.value.t != BooleanType {
        return None;
      }
      var a := BuildBinary(IXor, value.value.value, Constant(Bool(true)));
      r := Some(TypedOperand(a, BooleanType));
    }

    method EmitSign(e: Expr, operand: Expr, expected: Option<Type>) returns (r: Option<TypedOperand>)
      requires Valid() && Open(Now()) && (e.Negate? || e.BitNot?) && operand == e.operand
      modifies `blocks, `insertion, `registers
      ensures Emits(r, ElaborateSign(e, operand, expected, Table()), old(Now()))
      decreases e, 0
    {
      hide Lowering.Define, EmitArith, IntegerTypeOf, Elaborate, EmitExpr, Places, Types;
      SignIs(e, operand, expected, Table(), Now());
      var t := FirstConcrete(IntegerTypeOf(operand, Table()), None, expected);
      if t.None? {
        return None;
      }
      var value := EmitExpression(operand, Some(IntegerType(t.value)));
      if value.None? {
        return None;
      }
      var a;
      if e.Negate? {
        a := EmitArithmetic(Subtract, t.value, Constant(Bits(t.value.bits, 0)), value.value.value);
      } else {
        a := BuildBinary(IXor, value.value.value, Constant(Bits(t.value.bits, Pow2(t.value.bits) - 1)));
      }
      r := Some(TypedOperand(a, IntegerType(t.value)));
    }

    method EmitOperator(e: Expr, left: Expr, right: Expr, expected: Option<Type>) returns (r: Option<TypedOperand>)
      requires Valid() && Open(Now())
      requires (e.Arith? || e.Compare? || e.SameBool?) && left == e.left && right == e.right
      modifies `blocks, `insertion, `registers
      ensures Emits(r, Elaborate(e, expected, Table()), old(Now()))
      decreases e, 1
    {
      hide EmitExpr, ElaborateInteger, IntegerTypeOf, ExprTypeOf;
      if !e.Arith? && (e.SameBool? || e.cmp == Equal || e.cmp == NotEqual) && ComparesTruth(left, right, Table()) {
        r := EmitTruthEquality(e, left, right, if e.SameBool? then e.negated else e.cmp == NotEqual, expected);
        return;
      }
      var t := OperationType(left, right, expected, Table());
      if t.None? {
        return None;
      }
      r := EmitIntegerOperator(e, t.value, left, right);
    }

    /** Equality of two truth values. */
    method EmitTruthEquality(e: Expr, left: Expr, right: Expr, negated: bool, ghost expected: Option<Type>)
      returns (r: Option<TypedOperand>)
      requires Valid() && Open(Now())
      requires (e.Compare? || e.SameBool?) && left == e.left && right == e.right
      requires (e.SameBool? || e.cmp == Equal || e.cmp == NotEqual) && ComparesTruth(left, right, Table())
      requires negated == if e.SameBool? then e.negated else e.cmp == NotEqual
      modifies `blocks, `insertion, `registers
      ensures Emits(r, Elaborate(e, expected, Table()), old(Now()))
      decreases e, 0
    {
      hide Lowering.Define, Touches, Elaborate, EmitExpr, Places, Types;
      ghost var before := Now();
      TruthEqualityIs(e, left, right, expected, Table(), before);
      var a := EmitExpression(left, Some(BooleanType));
      if a.None? {
        return None;
      }
      EmitExprFrame(before, Elaborate(left, Some(BooleanType), Table()).e);
      var b := EmitExpression(right, Some(BooleanType));
      if b.None? {
        return None;
      }
      var c := BuildCompare(if negated then NE else EQ, a.value.value, b.value.value);
      r := Some(TypedOperand(c, BooleanType));
    }

    /** An integer operator or comparison at type `t`. */
    method EmitIntegerOperator(e: Expr, t: IntType, left: Expr, right: Expr) returns (r: Option<TypedOperand>)
      requires Valid() && Open(Now())
      requires (e.Arith? || e.Compare? || e.SameBool?) && left == e.left && right == e.right
      modifies `blocks, `insertion, `registers
      ensures Emits(r, ElaborateInteger(e, t, left, right, Table()), old(Now()))
      decreases e, 0
    {
      hide Lowering.Define, EmitArith, Elaborate, Coerced, Touches;
      ghost var before := Now();
      var a := EmitValue(left, IntegerType(t));
      if a.None? {
        return None;
      }
      EmitExprFrame(before, Coerced(Elaborate(left, Some(IntegerType(t)), Table()), IntegerType(t)).e);
      var b := EmitValue(right, IntegerType(t));
      if b.None? {
        return None;
      }
      var c;
      match e {
        case Arith(op, _, _, _) => c := EmitArithmetic(op, t, a.value.value, b.value.value);
        case Compare(cmp, _, _, _) => c := BuildCompare(ComparePredicate(cmp, t), a.value.value, b.value.value);
        case SameBool(negated, _, _) =>
          c := BuildCompare(ComparePredicate(if negated then NotEqual else Equal, t), a.value.value, b.value.value);
      }
      r := Some(TypedOperand(c, if e.Arith? then IntegerType(t) else BooleanType));
    }

    /** A value of the given type. */
    method EmitValue(e: Expr, t: Type) returns (r: Option<TypedOperand>)
      requires Valid() && Open(Now())
      modifies `blocks, `insertion, `registers
      ensures Emits(r, Coerced(Elaborate(e, Some(t), Table()), t), old(Now()))
      decreases e, 3
    {
      hide Elaborate;
      ghost var before := Now();
      r := EmitExpression(e, Some(t));
      if r.None? {
        return;
      }
      r := Coerce(r.value, t, Elaborate(e, Some(t), Table()), before);
    }

    /** Both operands must come out boolean; the right one runs in its own block. */
    method EmitLogical(e: Expr, left: Expr, right: Expr, isAnd: bool, ghost expected: Option<Type>)
      returns (r: Option<TypedOperand>)
      requires Valid() && Open(Now())
      requires (e.And? || e.Or?) && left == e.left && right == e.right && isAnd == e.And?
      modifies `blocks, `insertion, `registers
      ensures Emits(r, Elaborate(e, expected, Table()), old(Now()))
      decreases e, 0
    {
      hide Lowering.Define, OpenLogic, CloseLogic, EmitExpr, Touches, Elaborate, Places, Types;
      ghost var before := Now();
      LogicElaborates(e, left, right, expected, Table());
      ghost var c := Elaborate(e, expected, Table());
      if c.Elaborated? {
        LogicIs(before, c.e);
      }
      var a := EmitExpression(left, Some(BooleanType));
      if a.None? || a.value.t != BooleanType {
        return None;
      }
      ghost var l := Elaborate(left, Some(BooleanType), Table());
      EmitExprFrame(before, l.e);
      ghost var split := Now();
      var storage, merge := OpenRight(a.value.value, isAnd);
      OpenLogicFrame(split, a.value.value, isAnd);
      ghost var inRight := Now();
      var b := EmitExpression(right, Some(BooleanType));
      if b.None? || b.value.t != BooleanType {
        return None;
      }
      ghost var k := Elaborate(right, Some(BooleanType), Table());
      EmitExprFrame(inRight, k.e);
      RightKeepsMerge(split, a.value.value, isAnd, Now());
      var v := CloseRight(split, storage, merge, b.value.value);
      r := Some(TypedOperand(v, BooleanType));
    }

    method OpenRight(a: Operand, isAnd: bool) returns (storage: nat, merge: nat)
      requires Valid()
      modifies `blocks, `insertion, `registers
      ensures Valid() && Now() == OpenLogic(old(Now()), a, isAnd)
      ensures storage == Cells(old(Now())) && merge == |old(blocks)| + 1
    {
      hide Places;
      storage := AllocateStack();
      Build(Store(storage, a));
      var rightBlock := AppendBlock();
      merge := AppendBlock();
      BuildEnd(if isAnd then CondBr(a, rightBlock, merge) else CondBr(a, merge, rightBlock));
      PositionAtEnd(rightBlock);
    }

    method CloseRight(ghost left: State, storage: nat, merge: nat, b: Operand) returns (r: Operand)
      requires Valid() && storage == Cells(left) && merge == |left.blocks| + 1 && merge < |blocks|
      modifies `blocks, `insertion, `registers
      ensures Valid() && Emitted(Now(), r) == CloseLogic(left, old(Now()), b)
    {
      Build(Store(storage, b));
      if !HasTerminator() {
        BuildEnd(Br(merge));
      }
      PositionAtEnd(merge);
      r := BuildLoad(Place(storage, []));
    }

    // ----- patterns -----

    method CopyTaggedPayload(place: Place, tag: nat, index: nat) returns (cell: nat)
      requires Valid()
      modifies `blocks, `insertion, `registers
      ensures Valid() && Now() == ExtractPayload(old(Now()), place, tag, index) && cell == Cells(old(Now()))
    {
      cell := AllocateStack();
      Build(CopyPayload(cell, place, tag, index));
    }

    /** Computes whether the value at `place` matches the pattern. */
    method EmitPatternCondition(p: Pattern, place: Place) returns (r: Operand)
      requires Valid() && Open(Now())
      modifies `blocks, `insertion, `registers
      ensures Valid() && Emitted(Now(), r) == EmitCondition(old(Now()), p, place)
      decreases p
    {
      hide Lowering.Define, OpenTagTest, CloseTagTest, ExtractPayload, Conjoin, Touches, Open;
      r := Constant(Bool(true));
      if p.StructPattern? {
        for index := 0 to |p.fields|
          invariant Valid() && Open(Now())
          invariant EmitCondition(old(Now()), p, place) == EmitFieldConditions(Now(), p.fields, index, place, r)
        {
          EmitFieldConditionFrame(Now(), p.fields[index], place);
          var c := EmitFieldTest(p.fields[index], place);
          r := EmitAnd(r, c);
        }
      } else if p.EnumPattern? {
        ghost var before := Now();
        OpenTagTestFrame(before, p.tag, place);
        var storage, merge := OpenTest(p.tag, place);
        for index := 0 to |p.payloads|
          invariant Valid() && Open(Now()) && merge < |blocks|
          invariant EmitPayloadConditions(OpenTagTest(before, p.tag, place), p.payloads, 0, place, p.tag,
                                          Constant(Bool(true)))
                    == EmitPayloadConditions(Now(), p.payloads, index, place, p.tag, r)
        {
          ExtractFrame(Now(), place, p.tag, index);
          ghost var s := Now();
          var cell := CopyTaggedPayload(place, p.tag, index);
          EmitConditionFrame(Now(), p.payloads[index], Place(cell, []));
          ghost var n := |blocks|;
          GrowsAlong(s, Now());
          GrowsAlong(Now(), EmitCondition(Now(), p.payloads[index], Place(cell, [])).s);
          var c := EmitPatternCondition(p.payloads[index], Place(cell, []));
          r := EmitAnd(r, c);
        }
        r := CloseTest(before, storage, merge, r);
      }
    }

    method EmitFieldTest(f: FieldPattern, place: Place) returns (r: Operand)
      requires Valid() && Open(Now())
      modifies `blocks, `insertion, `registers
      ensures Valid() && Emitted(Now(), r) == EmitFieldCondition(old(Now()), f, place)
      decreases f
    {
      r := EmitPatternCondition(f.pattern, FieldPlace(place, f.index));
    }

    method EmitAnd(a: Operand, b: Operand) returns (r: Operand)
      requires Valid() && Open(Now())
      modifies `blocks, `insertion, `registers
      ensures Valid() && Open(Now()) && Emitted(Now(), r) == Conjoin(old(Now()), a, b) && |blocks| == old(|blocks|)
    {
      hide Touches;
      DefineFrame(Now(), Binary(registers, IAnd, a, b));
      r := BuildBinary(IAnd, a, b);
    }

    method OpenTest(tag: nat, place: Place) returns (storage: nat, merge: nat)
      requires Valid()
      modifies `blocks, `insertion, `registers
      ensures Valid() && Now() == OpenTagTest(old(Now()), tag, place)
      ensures storage == Cells(old(Now())) && merge == |old(blocks)| + 1 < |blocks|
    {
      hide Places, Lowering.Define;
      var loaded := BuildLoadTag(place);
      var tagMatches := BuildCompare(EQ, loaded, Constant(Bits(64, tag)));
      storage := AllocateStack();
      Build(Store(storage, Constant(Bool(false))));
      merge := OpenBranches(tagMatches);
    }

    method CloseTest(ghost before: State, storage: nat, merge: nat, condition: Operand) returns (r: Operand)
      requires Valid() && storage == Cells(before) && merge == |before.blocks| + 1 && merge < |blocks|
      modifies `blocks, `insertion, `registers
      ensures Valid() && Emitted(Now(), r) == CloseTagTest(before, old(Now()), condition)
    {
      Build(Store(storage, condition));
      BuildEnd(Br(merge));
      PositionAtEnd(merge);
      r := BuildLoad(Place(storage, []));
    }

    /** Declares and fills the names a pattern binds at type `t`. */
    method BindPatternValue(t: Type, p: Pattern, place: Place, ghost found: seq<BindingInfo>)
      requires Valid() && AnalyzeNode(t, p, found).Some?
      modifies this
      ensures Valid() && Now() == EmitBind(old(Now()), p, place)
      ensures var infos := AnalyzeNode(t, p, found).value.bindings;
              found <= infos && Table() == old(Table()) + Fresh(found, infos)
      decreases p
    {
      hide Lowering.Define, ExtractPayload, Fresh, Places, Types;
      ghost var table, infos, next := Table(), AnalyzeNode(t, p, found).value.bindings, found;
      AnalysisExtends(t, p, found);
      NothingFresh(table, found);
      match p {
        case Wildcard =>
        case Binding(x) =>
          var cell := AddLocal(x, t);
          var loaded := BuildLoad(place);
          Build(Store(cell, loaded));
          FreshOne(found, BindingInfo(x, t));
        case StructPattern(fields) =>
          for index := 0 to |fields|
            invariant Valid() && EmitBind(old(Now()), p, place) == EmitBindFields(Now(), fields, index, place)
            invariant AnalyzeFields(t, fields, index, next).Some?
            invariant AnalyzeFields(t, fields, index, next).value.0 == infos
            invariant found <= next && Table() == table + Fresh(found, next)
          {
            BindFieldValue(t, fields[index], place, next);
            ghost var more := AnalyzeField(t, fields[index], next).value.bindings;
            FreshThrough(table, found, next, more);
            next := more;
          }
        case EnumPattern(tag, payloads) =>
          var ts := t.constructors[tag].payloads;
          for index := 0 to |payloads|
            invariant Valid() && EmitBind(old(Now()), p, place) == EmitBindPayloads(Now(), payloads, index, place, tag)
            invariant AnalyzePayloads(ts, payloads, index, next).Some?
            invariant AnalyzePayloads(ts, payloads, index, next).value.0 == infos
            invariant found <= next && Table() == table + Fresh(found, next)
          {
            var cell := CopyTaggedPayload(place, tag, index);
            BindPatternValue(ts[index], payloads[index], Place(cell, []), next);
            ghost var more := AnalyzeNode(ts[index], payloads[index], next).value.bindings;
            FreshThrough(table, found, next, more);
            next := more;
          }
      }
    }

    method BindFieldValue(t: Type, f: FieldPattern, place: Place, ghost found: seq<BindingInfo>)
      requires Valid() && t.StructType? && AnalyzeField(t, f, found).Some?
      modifies this
      ensures Valid() && Now() == EmitBindField(old(Now()), f, place)
      ensures var infos := AnalyzeField(t, f, found).value.bindings;
              found <= infos && Table() == old(Table()) + Fresh(found, infos)
      decreases f
    {
      BindPatternValue(t.fields[f.index], f.pattern, FieldPlace(place, f.index), found);
    }

    // ----- matches -----

    /** What a method that builds a lowered form has done, given what its specification says. */
    ghost predicate Lowers(ok: bool, terminated: bool, spec: Lowered)
      reads this
    {
      Valid() && match spec
                 case Rejected => !ok
                 case Lowered(s, done) => ok && Now() == s && terminated == done
    }

    /** What a method that emits a statement from `before` has done, given the elaborated statement. */
    ghost predicate Builds(ok: bool, terminated: bool, core: Option<Stmt>, before: State, output: Option<Type>)
      reads this
    {
      Valid() && match core
                 case None => !ok
                 case Some(c) => Lowers(ok, terminated, EmitStatement(before, c, output.Some?, false))
    }

    /** The selection the flags of a case stand for. */
    static function Selection(hasTag: bool, tag: nat, needsFullTest: bool): Dispatch {
      if needsFullTest then ByTest else if hasTag then ByTag(tag) else Always
    }

    /** The recorded selection of a case is the one its pattern analysis calls for. */
    static ghost predicate Recorded(t: Type, c: Case, selection: Dispatch) {
      Analyze(t, c.pattern).Some? && selection == DispatchOf(Analyze(t, c.pattern).value)
    }

    /** Records how one case is selected. */
    static method RecordCase(info: Info, index: nat, hasTag: array<bool>, tags: array<nat>, needsFullTest: array<bool>)
      requires index < hasTag.Length == tags.Length == needsFullTest.Length && hasTag != needsFullTest
      modifies hasTag, tags, needsFullTest
      ensures Selection(hasTag[index], tags[index], needsFullTest[index]) == DispatchOf(info)
      ensures forall k :: 0 <= k < hasTag.Length && k != index ==>
                hasTag[k] == old(hasTag[k]) && tags[k] == old(tags[k]) && needsFullTest[k] == old(needsFullTest[k])
    {
      hasTag[index] := info.tag.Some?;
      needsFullTest[index] := false;
      if info.tag.Some? {
        tags[index] := info.tag.value;
        if !info.covered {
          needsFullTest[index] := true;
        }
      } else if !info.irrefutable {
        needsFullTest[index] := true;
      }
    }

    /** Analyses every pattern and appends an empty block for every arm. */
    method OpenArms(t: Type, cases: seq<Case>, caseBlocks: array<nat>, hasTag: array<bool>, tags: array<nat>,
                    needsFullTest: array<bool>)
      returns (ok: bool)
      requires Valid() && caseBlocks.Length == hasTag.Length == tags.Length == needsFullTest.Length == |cases|
      requires hasTag != needsFullTest && caseBlocks != tags
      modifies `blocks, `insertion, `registers, caseBlocks, hasTag, tags, needsFullTest
      ensures Valid() && (ok <==> Analyzed(t, cases))
      ensures ok ==> Now() == NewBlocks(old(Now()), |cases|)
      ensures ok ==> forall k :: 0 <= k < |cases| ==>
                caseBlocks[k] == old(|blocks|) + k
                && Recorded(t, cases[k], Selection(hasTag[k], tags[k], needsFullTest[k]))
    {
      hide AnalyzeNode, NewBlocks, Selection, DispatchOf;
      NewBlocksNone(Now());
      for index := 0 to |cases|
        invariant Valid() && Now() == NewBlocks(old(Now()), index) && |blocks| == old(|blocks|) + index
        invariant forall k :: 0 <= k < index ==> caseBlocks[k] == old(|blocks|) + k
        invariant forall k :: 0 <= k < index ==> Analyze(t, cases[k].pattern).Some?
        invariant forall k :: 0 <= k < index ==> Recorded(t, cases[k], Selection(hasTag[k], tags[k], needsFullTest[k]))
      {
        var analysis := Analyze(t, cases[index].pattern);
        if analysis.None? {
          return false;
        }
        RecordCase(analysis.value, index, hasTag, tags, needsFullTest);
        NewBlocksNext(old(Now()), index);
        caseBlocks[index] := AppendBlock();
      }
      ok := true;
    }

    /** The test of one case: its whole pattern, or its tag alone. */
    method EmitCaseTest(c: Case, selection: Dispatch, storage: nat, tagValue: Option<Operand>)
      returns (r: Option<Operand>)
      requires Valid() && Open(Now()) && !selection.Always?
      modifies `blocks, `insertion, `registers
      ensures Valid()
      ensures match selection
              case ByTest => r.Some? && Emitted(Now(), r.value) == EmitCondition(old(Now()), c.pattern,
                                                                                 Place(storage, []))
              case ByTag(tag) =>
                (if tagValue.None? then r.None? else
                 r == Some(Register(old(registers))) &&
                 Now() == Lowering.Define(old(Now()), ICmp(old(registers), EQ, tagValue.value, Constant(Bits(64,
                                                                                                             tag)))))
              case Always => true
      ensures r.Some? ==> Plain(old(Now()), Now()) && Open(Now())
    {
      hide Lowering.Define, Touches, EmitCondition;
      if selection.ByTest? {
        EmitConditionFrame(Now(), c.pattern, Place(storage, []));
        var matches := EmitPatternCondition(c.pattern, Place(storage, []));
        r := Some(matches);
      } else {
        if tagValue.None? {
          return None;
        }
        DefineFrame(Now(), ICmp(registers, EQ, tagValue.value, Constant(Bits(64, selection.tag))));
        var matches := BuildCompare(EQ, tagValue.value, Constant(Bits(64, selection.tag)));
        r := Some(matches);
      }
    }

    /** Branches to the arm if its test holds, and on to a new block of the chain otherwise. */
    method BranchOnTest(matches: Operand, arm: nat) returns (next: nat)
      requires Valid() && Open(Now()) && 0 < arm < |blocks|
      modifies `blocks, `insertion, `registers
      ensures Valid() && next == old(|blocks|) && |blocks| == next + 1
      ensures Position(Now(), next) == Dispatched(old(Now()), matches, arm) && Open(Position(Now(), next))
    {
      DispatchedFrame(Now(), matches, arm);
      next := AppendBlock();
      BuildEnd(CondBr(matches, arm, next));
    }

    /** Emits the chain of tests that selects an arm. */
    method EmitSelection(t: Type, cases: seq<Case>, caseBlocks: array<nat>, hasTag: array<bool>, tags: array<nat>,
                         needsFullTest: array<bool>, storage: nat, tagValue: Option<Operand>, ghost base: nat)
      returns (ok: bool)
      requires Valid() && Open(Now()) && 0 < base && base + |cases| <= |blocks|
      requires caseBlocks.Length == hasTag.Length == tags.Length == needsFullTest.Length == |cases|
      requires forall k :: 0 <= k < |cases| ==>
                 caseBlocks[k] == base + k
                 && Recorded(t, cases[k], Selection(hasTag[k], tags[k], needsFullTest[k]))
      modifies `blocks, `insertion, `registers
      ensures Valid()
      ensures match EmitDispatch(old(Now()), t, cases, 0, base, storage, tagValue)
              case None => !ok
              case Some(s) => ok && Now() == s
    {
      hide AnalyzeNode, EmitCondition, Lowering.Define, Touches, Plain, Dispatched, Open, DispatchOf, Places, Types;
      hide EmitDispatch, Recorded;
      ghost var before := Now();
      var dispatch := Some(insertion);
      var index := 0;
      PositionHere(Now());
      while index < |cases| && dispatch.Some?
        invariant Valid() && index <= |cases| && base + |cases| <= |blocks|
        invariant dispatch.Some? ==>
                    && 0 < dispatch.value < |blocks| && Open(Position(Now(), dispatch.value))
                    && EmitDispatch(before, t, cases, 0, base, storage, tagValue)
                       == EmitDispatch(Position(Now(), dispatch.value), t, cases, index, base, storage, tagValue)
        invariant dispatch.None? ==> EmitDispatch(before, t, cases, 0, base, storage, tagValue) == Some(Now())
        decreases |cases| - index
      {
        PositionAtEnd(dispatch.value);
        var selection := Selection(hasTag[index], tags[index], needsFullTest[index]);
        DispatchStep(Now(), t, cases, index, base, storage, tagValue, selection);
        if selection == Always {
          BuildEnd(Br(caseBlocks[index]));
          dispatch := None;
        } else {
          ghost var s := Now();
          var matches := EmitCaseTest(cases[index], selection, storage, tagValue);
          if matches.None? {
            return false;
          }
          GrowsAlong(s, Now());
          var next := BranchOnTest(matches.value, caseBlocks[index]);
          dispatch := Some(next);
        }
        index := index + 1;
      }
      if dispatch.Some? {
        PositionAtEnd(dispatch.value);
        DispatchEnds(Now(), t, cases, base, storage, tagValue);
        BuildEnd(Unreachable);
      }
      ok := true;
    }

    /** Emits one arm into its block; the names it adds are forgotten again. */
    method EmitMatchArm(t: Type, c: Case, block: nat, storage: nat, output: Option<Type>)
      returns (ok: bool, terminated: bool, exit: nat)
      requires Valid() && 0 < block < |blocks| && Open(Position(Now(), block)) && Analyze(t, c.pattern).Some?
      modifies this
      ensures Valid()
      ensures match ElaborateCase(c, t, old(Table()), output, false)
              case None => !ok
              case Some(core) =>
                match EmitArm(Position(old(Now()), block), core, storage, output.Some?, false)
                case Rejected => !ok
                case Lowered(s, done) => ok && Now() == s && terminated == done && exit == s.at
      ensures ok ==> Table() == old(Table())
      decreases c
    {
      hide EmitBind, EmitFrom, Touches, Open, ElaborateFrom, AnalyzeNode, LeftFrom, Places, Types, Entries;
      terminated, exit := false, block;
      var saved := |locals|;
      PositionAtEnd(block);
      ghost var start, table, infos := Now(), Table(), Analyze(t, c.pattern).value.bindings;
      EmitBindFrame(start, c.pattern, Place(storage, []));
      BindPatternValue(t, c.pattern, Place(storage, []), []);
      assert infos[0..] == infos;
      NamingOpen(start, Now());
      NamingLocals(start, Now());
      ok, terminated := EmitStatementList(c.body, output);
      if !ok {
        return;
      }
      exit := insertion;
      if HasTerminator() != terminated {
        ok := false;
        assert false;
      }
      Restored(saved, table, Entries(infos), LeftFrom(c.body, 0, false));
      locals := locals[..saved];
    }

    /** Cutting the table back to its old length. */
    lemma Restored(saved: nat, table: Table, more: Table, rest: Table)
      requires |table| == saved && Table() == table + more + rest
      ensures saved <= |locals| && Types(locals[..saved]) == table && Places(locals[..saved]) == Places(locals)[..saved]
    {
      assert forall i :: 0 <= i < saved ==> Table()[i] == table[i];
    }

    /** Emits every arm, recording where each one ends. */
    method EmitMatchArms(t: Type, cases: seq<Case>, caseBlocks: array<nat>, armExits: array<nat>,
                         armTerminated: array<bool>, storage: nat, output: Option<Type>, ghost base: nat)
      returns (ok: bool, liveCount: nat, ghost exits: seq<Option<nat>>)
      requires Valid() && Waiting(Now(), base, |cases|) && Analyzed(t, cases)
      requires caseBlocks.Length == armExits.Length == armTerminated.Length == |cases| && caseBlocks != armExits
      requires forall k :: 0 <= k < |cases| ==> caseBlocks[k] == base + k
      modifies this, armExits, armTerminated
      ensures Valid()
      ensures match ElaborateCases(cases, 0, t, old(Table()), output, false)
              case None => !ok
              case Some(core) =>
                match EmitArms(old(Now()), core, 0, base, storage, output.Some?, false)
                case ArmsRejected => !ok
                case Arms(s, e) => ok && Now() == s && exits == e
      ensures ok ==> Table() == old(Table())
      ensures ok ==> |exits| == |cases| && (liveCount == 0 <==> AllEnded(exits))
      ensures ok ==> ArmsEnd(exits, armTerminated[..], armExits[..], |blocks|)
      decreases cases, 0
    {
      hide EmitArm, EmitArms, Waiting, Touches, Open, Prefixed, ElaborateCase, ElaborateCases, AnalyzeNode, Places;
      hide Types, Planned, AllEnded, ArmsEnd;
      ghost var start, table := Now(), Table();
      ghost var plan := ElaborateCases(cases, 0, t, table, output, false);
      ghost var core := if plan.Some? then plan.value else cases;
      ghost var all := EmitArms(start, core, 0, base, storage, output.Some?, false);
      exits := [];
      liveCount := 0;
      var index := 0;
      PrefixedNone(all);
      NoArmsEnd(armTerminated[..], armExits[..], |blocks|);
      PlannedFirst(cases, t, table, output);
      while index < |cases|
        invariant index <= |cases| == |core| && |exits| == index
        invariant Valid() && Waiting(Now(), base + index, |cases| - index) && Table() == table
        invariant forall k :: 0 <= k < |cases| ==> caseBlocks[k] == base + k
        invariant Planned(plan, cases, index, t, table, output)
        invariant plan.Some? ==>
                    all == Prefixed(exits, EmitArms(Now(), core, index, base, storage, output.Some?, false))
        invariant liveCount == 0 <==> AllEnded(exits)
        invariant ArmsEnd(exits, armTerminated[..], armExits[..], |blocks|)
        decreases |cases| - index
      {
        ghost var s := Now();
        WaitingFirst(s, base + index, |cases| - index);
        ghost var arm := ElaborateCase(cases[index], t, table, output, false);
        PlannedNext(plan, cases, index, t, table, output);
        if plan.Some? {
          PrefixedStep(exits, s, core, index, base, storage, output.Some?);
        }
        var armOk, terminated, exit := EmitMatchArm(t, cases[index], caseBlocks[index], storage, output);
        if !armOk {
          return false, 0, [];
        }
        ArmStates(s, cases[index := arm.value], index, base, storage, output.Some?, false);
        ArmsEndNext(exits, armTerminated[..], armExits[..], s, Now(), terminated, exit);
        armExits[index] := exit;
        armTerminated[index] := terminated;
        if !terminated {
          liveCount := liveCount + 1;
        }
        ghost var older := exits;
        exits := exits + [if terminated then None else Some(exit)];
        AllEndedNext(older, if terminated then None else Some(exit));
        index := index + 1;
      }
      PlannedLast(plan, cases, t, table, output);
      PrefixedEnd(exits, Now(), core, base, storage, output.Some?);
      ok := true;
    }

    /** Branches every live arm to the continuation. */
    method JoinLiveArms(armExits: array<nat>, armTerminated: array<bool>, ghost exits: seq<Option<nat>>)
      requires Valid() && armExits.Length == armTerminated.Length == |exits|
      requires exists k :: 0 <= k < |exits| && exits[k].Some?
      requires ArmsEnd(exits, armTerminated[..], armExits[..], |blocks|)
      modifies `blocks, `insertion, `registers
      ensures Valid() && Lowered(Now(), false) == JoinArms(old(Now()), exits)
    {
      var merge := AppendBlock();
      ghost var joined := JoinExits(Now(), exits, 0, merge);
      JoinExitsLocals(Now(), exits, 0, merge);
      for index := 0 to armExits.Length
        invariant Valid() && |blocks| == merge + 1 == old(|blocks|) + 1
        invariant joined == JoinExits(Now(), exits, index, merge)
      {
        if !armTerminated[index] {
          PositionAtEnd(armExits[index]);
          BuildEnd(Br(merge));
        }
      }
      PositionAtEnd(merge);
    }

    /** The scrutinee's own type decides how its patterns are read. */
    method EmitMatch(scrutinee: Expr, cases: seq<Case>, output: Option<Type>, ghost stmt: Stmt)
      returns (ok: bool, terminated: bool)
      requires Valid() && Open(Now()) && stmt.Match? && scrutinee == stmt.scrutinee && cases == stmt.cases
      modifies this
      ensures Builds(ok, terminated, ElaborateStatement(stmt, old(Table()), output, false), old(Now()), output)
      ensures ok ==> Table() == old(Table()) + Left(stmt, false)
      decreases stmt, 0
    {
      hide EmitExpr, ElaborateCases, Elaborate, Coerced, ExprTypeOf, Places, Types, MatchFrom, Touches, EmitStatement;
      ghost var before, table := Now(), Table();
      if |cases| == 0 {
        return false, false;
      }
      var valueType := ExprTypeOf(scrutinee, Table());
      if valueType.None? {
        return false, false;
      }
      var t := valueType.value;
      ghost var c := Coerced(Elaborate(scrutinee, Some(t), table), t);
      ghost var plan := ElaborateCases(cases, 0, t, table, output, false);
      CoercedType(Elaborate(scrutinee, Some(t), table), t);
      ElaboratedAnalyzed(cases, t, table, output);
      if c.Elaborated? && plan.Some? {
        MatchIsFrom(before, t, c.e, plan.value, output.Some?);
      }
      var value := EmitValue(scrutinee, t);
      if value.None? {
        return false, false;
      }
      EmitExprFrame(before, c.e);
      assert table + [] == table;
      ok, terminated := EmitCases(t, cases, value.value.value, output);
    }

    /** Selection, arms and join of a match whose scrutinee has been emitted. */
    method EmitCases(t: Type, cases: seq<Case>, value: Operand, output: Option<Type>) returns (ok: bool,
        terminated: bool)
      requires Valid() && Open(Now())
      modifies this
      ensures match ElaborateCases(cases, 0, t, old(Table()), output, false)
              case None => Valid() && !ok
              case Some(core) => Lowers(ok, terminated, MatchFrom(old(Now()), t, value, core, output.Some?))
      ensures ok ==> Table() == old(Table())
      decreases cases, 1
    {
      hide EmitDispatch, EmitArms, JoinArms, Touches, Plain, Open, Analyzed, Waiting, NewBlocks, ElaborateCases;
      hide Places, Types;
      terminated := false;
      ghost var s, table, base := Now(), Table(), |blocks|;
      var storage, tagValue := StoreScrutinee(t, value);
      var n := |cases|;
      var caseBlocks, armExits, tags := new nat[n], new nat[n], new nat[n];
      var hasTag, needsFullTest, armTerminated := new bool[n], new bool[n], new bool[n];
      ElaboratedAnalyzed(cases, t, table, output);
      ok := OpenArms(t, cases, caseBlocks, hasTag, tags, needsFullTest);
      if !ok {
        return;
      }
      OpenMatchReady(s, t, value, n);
      ok := EmitSelection(t, cases, caseBlocks, hasTag, tags, needsFullTest, storage, tagValue, base);
      ghost var plan := ElaborateCases(cases, 0, t, table, output, false);
      if plan.Some? {
        SameDispatch(OpenMatch(s, t, value, n), t, cases, plan.value, 0, base, storage, tagValue);
      }
      if !ok {
        return;
      }
      ghost var exits;
      var liveCount;
      SelectionWaits(s, t, value, cases);
      ok, liveCount, exits := EmitMatchArms(t, cases, caseBlocks, armExits, armTerminated, storage, output, base);
      if !ok {
        return;
      }
      if liveCount == 0 {
        terminated := true;
        NoExits(Now(), exits);
      } else {
        JoinLiveArms(armExits, armTerminated, exits);
      }
    }

    /** Stores the scrutinee and loads its tag. */
    method StoreScrutinee(t: Type, value: Operand) returns (storage: nat, tagValue: Option<Operand>)
      requires Valid()
      modifies `blocks, `insertion, `registers
      ensures Valid() && storage == Cells(old(Now())) && tagValue == MatchTag(old(Now()), t)
      ensures |blocks| == old(|blocks|)
      ensures forall n: nat :: NewBlocks(Now(), n) == OpenMatch(old(Now()), t, value, n)
    {
      hide NewBlocks;
      storage := AllocateStack();
      Build(Store(storage, value));
      tagValue := None;
      if t.EnumType? {
        var loaded := BuildLoadTag(Place(storage, []));
        tagValue := Some(loaded);
      }
    }

    // ----- statements -----

    method EmitStatementList(block: seq<Stmt>, output: Option<Type>) returns (ok: bool, terminated: bool)
      requires Valid() && Open(Now())
      modifies this
      ensures match ElaborateFrom(block, 0, old(Table()), output, false)
              case None => Valid() && !ok
              case Some(core) => Lowers(ok, terminated, EmitFrom(old(Now()), core, 0, output.Some?, false))
      ensures ok ==> (terminated <==> HasTerminator()) && Table() == old(Table()) + LeftFrom(block, 0, false)
      ensures ok ==> Flow(old(Now()), Now(), terminated)
      decreases block
    {
      hide EmitStatement, ElaborateStatement, Touches, Left, Ends, Places, Types;
      ghost var before, table := Now(), Table();
      ghost var plan := ElaborateFrom(block, 0, table, output, false);
      ghost var core := if plan.Some? then plan.value else block;
      assert core[0..] == core;
      EmitFromFrame(before, core, 0, output.Some?, false);
      for index := 0 to |block|
        invariant Valid() && Open(Now())
        invariant plan.Some? == ElaborateFrom(block, index, Table(), output, false).Some?
        invariant plan.Some? ==> ElaborateFrom(block, index, Table(), output, false) == Some(core[index..])
        invariant plan.Some? ==>
                    EmitFrom(before, core, 0, output.Some?, false) == EmitFrom(Now(), core, index, output.Some?, false)
        invariant table + LeftFrom(block, 0, false) == Table() + LeftFrom(block, index, false)
      {
        ghost var s, here := Now(), Table();
        ghost var next := ElaborateStatement(block[index], here, output, false);
        if plan.Some? {
          assert core[index] == core[index..][0] && core[index + 1..] == core[index..][1..];
        }
        ok, terminated := EmitOne(block[index], output);
        if !ok {
          return;
        }
        EmitStatementFrame(s, next.value, output.Some?, false);
        FlowReports(s, Now(), terminated);
        EmissionEnds(s, next.value, output.Some?, false);
        SettledEnds(block[index], here, output, false);
        TableNext(here, block, index);
        if terminated {
          return;
        }
      }
      assert Table() + [] == Table();
      ok, terminated := true, false;
    }

    method EmitOne(stmt: Stmt, output: Option<Type>) returns (ok: bool, terminated: bool)
      requires Valid()
      modifies this
      ensures Builds(ok, terminated, ElaborateStatement(stmt, old(Table()), output, false), old(Now()), output)
      ensures ok ==> Table() == old(Table()) + Left(stmt, false)
      decreases stmt, 1
    {
      hide EmitExpr, EmitFrom, Touches, JoinIf, CloseWhile, JoinArms, EmitDispatch, EmitArms, OpenIf, OpenWhile;
      hide Places, Types;
      hide Elaborate, Coerced, ElaborateFrom, ElaborateCases, ElaborateCondition, ElaborateScrutinee, TypeAt, LeftFrom;
      ok, terminated := true, false;
      ghost var before, table := Now(), Table();
      assert table + [] == table;
      if HasTerminator() {
        return false, false;
      }
      match stmt {
        case Declare(x, t, _) => var _ := AddLocal(x, t);
        case Assign(x, e) => ok := EmitAssignment(x, e, output);
        case Return(result) => ok, terminated := EmitReturn(result, output);
        case If(condition, thenBlock, elseBlock) => ok, terminated := EmitIf(condition, thenBlock, elseBlock,
                                                                             output, stmt);
        case Unsafe(body) => ok, terminated := EmitStatementList(body, output);
        case While(condition, body) => ok, terminated := EmitWhile(condition, body, output, stmt);
        case Match(_, scrutinee, cases) => ok, terminated := EmitMatch(scrutinee, cases, output, stmt);
      }
    }

    method EmitAssignment(x: string, e: Expr, output: Option<Type>) returns (ok: bool)
      requires Valid() && Open(Now())
      modifies `blocks, `insertion, `registers
      ensures Builds(ok, false, ElaborateStatement(Assign(x, e), Table(), output, false), old(Now()), output)
    {
      hide EmitExpr, Elaborate, Coerced, Places, Types;
      var i := FindLocal(x);
      if i.None? {
        return false;
      }
      var cell := locals[i.value].cell;
      var value := EmitValue(e, locals[i.value].t);
      if value.None? {
        return false;
      }
      Build(Store(cell, value.value.value));
      ok := true;
    }

    method EmitReturn(result: Option<Expr>, output: Option<Type>) returns (ok: bool, terminated: bool)
      requires Valid() && Open(Now())
      modifies `blocks, `insertion, `registers
      ensures Builds(ok, terminated, ElaborateStatement(Return(result), Table(), output, false), old(Now()), output)
    {
      hide EmitExpr, Elaborate, Coerced, Places, Types;
      ok, terminated := false, false;
      if result.Some? != output.Some? {
        return;
      }
      if result.None? {
        BuildEnd(RetVoid);
        return true, true;
      }
      var value := EmitValue(result.value, output.value);
      if value.None? {
        return;
      }
      BuildEnd(Ret(value.value.value));
      ok, terminated := true, true;
    }

    /** Emits a condition, which must come out boolean. */
    method EmitTruth(c: Expr) returns (r: Option<Operand>)
      requires Valid() && Open(Now())
      modifies `blocks, `insertion, `registers
      ensures match ElaborateCondition(c, Table())
              case None => Valid() && r.None?
              case Some(core) =>
                Valid() && match EmitExpr(old(Now()), core)
                           case Failed => r.None?
                           case Emitted(s, a) => Now() == s && r == Some(a) && Open(s) && Plain(old(Now()), s)
    {
      hide EmitExpr, Elaborate, Touches;
      ghost var before := Now();
      var value := EmitExpression(c, None);
      if value.None? || value.value.t != BooleanType {
        return None;
      }
      EmitExprFrame(before, Elaborate(c, None, Table()).e);
      r := Some(value.value.value);
    }

    method EmitIf(condition: Expr, thenBlock: seq<Stmt>, elseBlock: seq<Stmt>, output: Option<Type>, ghost stmt: Stmt)
      returns (ok: bool, terminated: bool)
      requires Valid() && Open(Now()) && stmt == If(condition, thenBlock, elseBlock)
      modifies this
      ensures Builds(ok, terminated, ElaborateStatement(stmt, old(Table()), output, false), old(Now()), output)
      ensures ok ==> Table() == old(Table()) + Left(stmt, false)
      decreases stmt, 0
    {
      hide EmitExpr, EmitFrom, Touches, OpenIf, JoinIf, ElaborateCondition, ElaborateFrom, LeftFrom, Places, Types;
      hide Plain, EmitStatement, ElaborateStatement;
      terminated := false;
      ghost var table := Table();
      IfIs(Now(), stmt, table, output);
      var value := EmitTruth(condition);
      if value.None? {
        return false, false;
      }
      ghost var s1 := Now();
      OpenIfFrame(s1, value.value);
      var elseStart := OpenBranches(value.value);
      var thenTerminated;
      ok, thenTerminated := EmitStatementList(thenBlock, output);
      if !ok {
        return;
      }
      var thenExit := insertion;
      if HasTerminator() != thenTerminated {
        ok := false;
        assert false;
      }
      ghost var s2 := Now();
      IfElseAt(s1, value.value, s2, thenTerminated, Position(s2, elseStart));
      PositionAtEnd(elseStart);
      var elseTerminated;
      ok, elseTerminated := EmitStatementList(elseBlock, output);
      if !ok {
        return;
      }
      var elseExit := insertion;
      if HasTerminator() != elseTerminated {
        ok := false;
        assert false;
      }
      FlowCells(Position(s2, elseStart), Now(), elseTerminated);
      assert table + LeftFrom(thenBlock, 0, false) + LeftFrom(elseBlock, 0, false) == table + Left(stmt, false);
      terminated := JoinBranches(thenTerminated, thenExit, elseTerminated, elseExit);
    }

    method JoinBranches(thenTerminated: bool, thenExit: nat, elseTerminated: bool, elseExit: nat)
      returns (terminated: bool)
      requires Valid() && 0 < thenExit < |blocks| && 0 < elseExit < |blocks|
      modifies `blocks, `insertion, `registers
      ensures Lowers(true, terminated, JoinIf(old(Now()), if thenTerminated then None else Some(thenExit),
                                              if elseTerminated then None else Some(elseExit)))
    {
      if thenTerminated && elseTerminated {
        return true;
      }
      var merge := AppendBlock();
      if !thenTerminated {
        PositionAtEnd(thenExit);
        BuildEnd(Br(merge));
      }
      if !elseTerminated {
        PositionAtEnd(elseExit);
        BuildEnd(Br(merge));
      }
      PositionAtEnd(merge);
      terminated := false;
    }

    method EmitWhile(condition: Expr, body: seq<Stmt>, output: Option<Type>, ghost stmt: Stmt)
      returns (ok: bool, terminated: bool)
      requires Valid() && Open(Now()) && stmt == While(condition, body)
      modifies this
      ensures Builds(ok, terminated, ElaborateStatement(stmt, old(Table()), output, false), old(Now()), output)
      ensures ok ==> Table() == old(Table()) + Left(stmt, false)
      decreases stmt, 0
    {
      hide EmitExpr, EmitFrom, Touches, OpenWhile, CloseWhile, ElaborateCondition, ElaborateFrom, LeftFrom, Places;
      hide Types, Plain, ElaborateStatement, EmitStatement;
      terminated := false;
      ghost var before, table := Now(), Table();
      WhileIsFrom(before, stmt, table, output);
      OpenWhileFrame(before);
      var head, bodyStart, exit := OpenLoop();
      var value := EmitTruth(condition);
      if value.None? {
        return false, false;
      }
      WhileBodyFrame(before, Now(), value.value);
      BuildEnd(CondBr(value.value, bodyStart, exit));
      LoopBlocksExist(before, Now(), value.value);
      PositionAtEnd(bodyStart);
      ghost var entry := Now();
      var bodyTerminated;
      ok, bodyTerminated := EmitStatementList(body, output);
      if !ok {
        return;
      }
      if HasTerminator() != bodyTerminated {
        ok := false;
        assert false;
      }
      FlowCells(entry, Now(), bodyTerminated);
      CloseLoop(before, head, exit, bodyTerminated);
    }

    method OpenLoop() returns (head: nat, bodyStart: nat, exit: nat)
      requires Valid() && Open(Now())
      modifies `blocks, `insertion, `registers
      ensures Valid() && Now() == OpenWhile(old(Now()))
      ensures head == old(|blocks|) && bodyStart == head + 1 && exit == head + 2
    {
      hide Places;
      head := AppendBlock();
      bodyStart := AppendBlock();
      exit := AppendBlock();
      BuildEnd(Br(head));
      PositionAtEnd(head);
    }

    method CloseLoop(ghost before: State, head: nat, exit: nat, bodyTerminated: bool)
      requires Valid() && head == |before.blocks| && exit == head + 2 < |blocks|
      modifies `blocks, `insertion, `registers
      ensures Lowers(true, false, CloseWhile(before, Lowered(old(Now()), bodyTerminated)))
    {
      if !bodyTerminated {
        BuildEnd(Br(head));
      }
      PositionAtEnd(exit);
    }

    // ----- whole functions -----

    /** Gives every parameter a cell and stores the argument that arrives in its register. */
    method StoreArguments(parameters: seq<Parameter>)
      requires Valid() && Now() == StartFunction(|parameters|) && Table() == []
      modifies this
      ensures Valid() && Open(Now()) && Table() == ParameterTable(parameters)
      ensures Now() == StoreParameters(StartFunction(|parameters|), ParameterNames(parameters), 0)
    {
      hide Touches, Places, Types;
      ghost var names := ParameterNames(parameters);
      for index := 0 to |parameters|
        invariant Valid() && Open(Now())
        invariant StoreParameters(StartFunction(|names|), names, 0) == StoreParameters(Now(), names, index)
        invariant Table() == ParameterTable(parameters)[..index]
      {
        var cell := AddLocal(parameters[index].name, parameters[index].t);
        Build(Store(cell, Register(index)));
      }
      assert Table() == ParameterTable(parameters);
    }

    /** Emits a whole body into a fresh function; succeeds exactly when the specification does. */
    method EmitFunctionBody(parameters: seq<Parameter>, body: seq<Stmt>, output: Option<Type>) returns (ok: bool)
      requires Valid() && Now() == StartFunction(|parameters|) && Table() == []
      modifies this
      ensures ok <==> Compile(parameters, body, output, false).Some?
      ensures ok ==> Compile(parameters, body, output, false) == Some(blocks) && WellFormed(blocks)
    {
      hide EmitFrom, Touches, ElaborateFrom, LeftFrom, Places, Types, StoreParameters, WellFormed;
      ghost var names := ParameterNames(parameters);
      StoreArguments(parameters);
      ghost var core := ElaborateFunction(parameters, body, output, false);
      if core.Some? {
        EmittedFunctionWellFormed(names, core.value, output.Some?, false);
      }
      var terminated;
      ok, terminated := EmitStatementList(body, output);
      if !ok {
        return;
      }
      if !terminated && !HasTerminator() {
        if output.Some? {
          return false;
        }
        BuildEnd(RetVoid);
      }
      if blocks[0].end.Some? {
        ok := false;
        assert false;
      }
      blocks := blocks[0 := blocks[0].(end := Some(Br(1)))];
    }
  }

  /** What equality of truth values elaborates to, and how that is emitted. */
  lemma TruthEqualityIs(e: Expr, left: Expr, right: Expr, expected: Option<Type>, table: Table, s: State)
    requires (e.Compare? || e.SameBool?) && left == e.left && right == e.right
    requires (e.SameBool? || e.cmp == Equal || e.cmp == NotEqual) && ComparesTruth(left, right, table)
    ensures var negated := if e.SameBool? then e.negated else e.cmp == NotEqual;
            var l, r := Elaborate(left, Some(BooleanType), table), Elaborate(right, Some(BooleanType), table);
            if l.Untyped? || r.Untyped? then Elaborate(e, expected, table) == Untyped
            else
              && Elaborate(e, expected, table) == Elaborated(SameBool(negated, l.e, r.e), BooleanType)
              && EmitExpr(s, SameBool(negated, l.e, r.e)) == TruthEquality(s, l.e, r.e, negated)
  {
    hide Lowering.Define, ExprTypeOf, IntegerTypeOf, EmitExpr;
    var l, r := Elaborate(left, Some(BooleanType), table), Elaborate(right, Some(BooleanType), table);
    if l.Elaborated? && r.Elaborated? {
      TruthEqualityEmits(s, l.e, r.e, if e.SameBool? then e.negated else e.cmp == NotEqual);
    }
  }

  /** The code of an equality of truth values. */
  function TruthEquality(s: State, left: Expr, right: Expr, negated: bool): Emission {
    match EmitExpr(s, left)
    case Failed => Failed
    case Emitted(s1, a) =>
      match EmitExpr(s1, right)
      case Failed => Failed
      case Emitted(s2, b) =>
        Emitted(Lowering.Define(s2, ICmp(s2.registers, if negated then NE else EQ, a, b)), Register(s2.registers))
  }

  lemma TruthEqualityEmits(s: State, left: Expr, right: Expr, negated: bool)
    ensures EmitExpr(s, SameBool(negated, left, right)) == TruthEquality(s, left, right, negated)
  {
    hide Lowering.Define, EmitArith, EmitConversion, EmitRead, OpenLogic, CloseLogic;
  }

  lemma LogicElaborates(e: Expr, left: Expr, right: Expr, expected: Option<Type>, table: Table)
    requires (e.And? || e.Or?) && left == e.left && right == e.right
    ensures var l, r := Elaborate(left, Some(BooleanType), table), Elaborate(right, Some(BooleanType), table);
            Elaborate(e, expected, table)
            == if l.Untyped? || r.Untyped? || l.t != BooleanType || r.t != BooleanType then Untyped
               else Elaborated(if e.And? then And(l.e, r.e) else Or(l.e, r.e), BooleanType)
  {
  }

  /** Dispatch of one case, by the selection recorded for it. */
  lemma DispatchStep(
    s: State, t: Type, cases: seq<Case>, i: nat, base: nat, storage: nat, tag: Option<Operand>, selection: Dispatch)
    requires i < |cases| && FunctionEmitter.Recorded(t, cases[i], selection)
    ensures EmitDispatch(s, t, cases, i, base, storage, tag) ==
            match selection
            case Always => Some(End(s, Br(base + i)))
            case ByTag(k) =>
              if tag.None? then None else
              var s1 := Lowering.Define(s, ICmp(s.registers, EQ, tag.value, Constant(Bits(64, k))));
              EmitDispatch(Dispatched(s1, Register(s.registers), base + i), t, cases, i + 1, base, storage, tag)
            case ByTest =>
              match EmitCondition(s, cases[i].pattern, Place(storage, []))
              case Failed => None
              case Emitted(s1, c) => EmitDispatch(Dispatched(s1, c, base + i), t, cases, i + 1, base, storage, tag)
  {
    hide AnalyzeNode, EmitCondition, Lowering.Define, Dispatched, DispatchOf;
  }

  lemma DispatchEnds(s: State, t: Type, cases: seq<Case>, base: nat, storage: nat, tag: Option<Operand>)
    ensures EmitDispatch(s, t, cases, |cases|, base, storage, tag) == Some(End(s, Unreachable))
  {
  }

  /** A match after its scrutinee. */
  function MatchFrom(s: State, t: Type, a: Operand, cases: seq<Case>, returnsValue: bool): Lowered {
    match EmitDispatch(OpenMatch(s, t, a, |cases|), t, cases, 0, |s.blocks|, Cells(s), MatchTag(s, t))
    case None => Rejected
    case Some(s1) =>
      match EmitArms(s1, cases, 0, |s.blocks|, Cells(s), returnsValue, false)
      case ArmsRejected => Rejected
      case Arms(s2, exits) => JoinArms(s2, exits)
  }

  lemma MatchIsFrom(s: State, t: Type, scrutinee: Expr, cases: seq<Case>, returnsValue: bool)
    requires Open(s) && cases != [] && Analyzed(t, cases)
    ensures EmitStatement(s, Match(t, scrutinee, cases), returnsValue, false)
            == match EmitExpr(s, scrutinee)
               case Failed => Rejected
               case Emitted(s1, a) => MatchFrom(s1, t, a, cases, returnsValue)
  {
    hide EmitExpr, EmitDispatch, EmitArms, JoinArms, OpenMatch, Analyzed, Open;
  }

  /** A conditional, part by part. */
  lemma IfIs(s: State, stmt: Stmt, table: Table, output: Option<Type>)
    requires stmt.If? && Open(s)
    ensures var e := ElaborateStatement(stmt, table, output, false);
            var c := ElaborateCondition(stmt.condition, table);
            var yes := ElaborateFrom(stmt.thenBlock, 0, table, output, false);
            var no := ElaborateFrom(stmt.elseBlock, 0, table + LeftFrom(stmt.thenBlock, 0, false), output, false);
            if c.None? || yes.None? || no.None? then e.None?
            else
              && e == Some(If(c.value, yes.value, no.value))
              && EmitStatement(s, e.value, output.Some?, false) == IfFrom(s, c.value, yes.value, no.value, output.Some?)
  {
    hide EmitExpr, EmitFrom, OpenIf, JoinIf, ElaborateCondition, ElaborateFrom, LeftFrom, Open;
  }

  /** A loop, part by part. */
  lemma WhileIsFrom(s: State, stmt: Stmt, table: Table, output: Option<Type>)
    requires stmt.While? && Open(s)
    ensures var e := ElaborateStatement(stmt, table, output, false);
            var c := ElaborateCondition(stmt.condition, table);
            var body := ElaborateFrom(stmt.body, 0, table, output, false);
            if c.None? || body.None? then e.None?
            else
              && e == Some(While(c.value, body.value))
              && EmitStatement(s, e.value, output.Some?, false) == WhileFrom(s, c.value, body.value, output.Some?)
  {
    hide EmitExpr, EmitFrom, OpenWhile, CloseWhile, ElaborateCondition, ElaborateFrom, Open;
  }

  function WhileFrom(s: State, c: Expr, body: seq<Stmt>, returnsValue: bool): Lowered {
    match EmitExpr(OpenWhile(s), c)
    case Failed => Rejected
    case Emitted(s1, a) =>
      match EmitFrom(LoopBody(s, s1, a), body, 0, returnsValue, false)
      case Rejected => Rejected
      case Lowered(s2, done) => CloseWhile(s, Lowered(s2, done))
  }

  function IfFrom(s: State, c: Expr, yes: seq<Stmt>, no: seq<Stmt>, returnsValue: bool): Lowered {
    match EmitExpr(s, c)
    case Failed => Rejected
    case Emitted(s1, a) =>
      match EmitFrom(OpenIf(s1, a), yes, 0, returnsValue, false)
      case Rejected => Rejected
      case Lowered(s2, done2) =>
        match EmitFrom(Position(s2, |s1.blocks| + 1), no, 0, returnsValue, false)
        case Rejected => Rejected
        case Lowered(s3, done3) => JoinIf(s3, ExitOf(Lowered(s2, done2)), ExitOf(Lowered(s3, done3)))
  }

  /** How a negation or complement at a type is emitted. */
  lemma SignIs(e: Expr, operand: Expr, expected: Option<Type>, table: Table, s: State)
    requires (e.Negate? || e.BitNot?) && operand == e.operand
    ensures var t := FirstConcrete(IntegerTypeOf(operand, table), None, expected);
            t.Some? ==>
              var c := Elaborate(operand, Some(IntegerType(t.value)), table);
              c.Elaborated? ==>
                && EmitExpr(s, Negate(t.value, c.e)) ==
                   (match EmitExpr(s, c.e)
                    case Failed => Failed
                    case Emitted(s1, a) => EmitArith(s1, Subtract, t.value, Constant(Bits(t.value.bits, 0)), a))
                && EmitExpr(s, BitNot(t.value, c.e)) ==
                   match EmitExpr(s, c.e)
                   case Failed => Failed
                   case Emitted(s1, a) =>
                     Emitted(Lowering.Define(s1, Binary(s1.registers, IXor, a, Constant(Bits(t.value.bits,
                                                                                             Pow2(t.value.bits) - 1)))),
                             Register(s1.registers))
  {
    hide Lowering.Define, EmitArith, IntegerTypeOf, Elaborate;
  }

  lemma FreshOne(found: seq<BindingInfo>, info: BindingInfo)
    ensures Fresh(found, found + [info]) == [TypedName(info.name, info.t)]
  {
  }

  /** The table after one more statement of a block. */
  lemma TableNext(table: Table, block: seq<Stmt>, i: nat)
    requires i < |block|
    ensures table + LeftFrom(block, i, false)
            == if Ends(block[i]) then table + Left(block[i], false)
               else table + Left(block[i], false) + LeftFrom(block, i + 1, false)
  {
    hide Left, Ends;
    var next := Left(block[i], false);
    assert next + [] == next;
    if !Ends(block[i]) {
      assert table + (next + LeftFrom(block, i + 1, false)) == table + next + LeftFrom(block, i + 1, false);
    }
  }

  lemma CoercedType(r: Elaborated, target: Type)
    ensures var c := Coerced(r, target); c.Elaborated? ==> c.t == target
  {
  }

  /** Only cases whose patterns pass the analysis are elaborated, and their patterns stay. */
  lemma ElaboratedAnalyzed(cases: seq<Case>, t: Type, table: Table, output: Option<Type>)
    ensures var core := ElaborateCases(cases, 0, t, table, output, false);
            core.Some? ==>
              && Analyzed(t, cases) && Analyzed(t, core.value) && |core.value| == |cases|
              && forall k :: 0 <= k < |cases| ==> core.value[k].pattern == cases[k].pattern
  {
    hide AnalyzeNode, ElaborateCases;
    var core := ElaborateCases(cases, 0, t, table, output, false);
    if core.Some? {
      assert core.value[0..] == core.value;
      CasesEndToo(cases, 0, t, core.value, table, output, false);
    }
  }

  /** What is left to elaborate from case `i` on, against the plan for all cases. */
  predicate Planned(plan: Option<seq<Case>>, cases: seq<Case>, i: nat, t: Type, table: Table, output: Option<Type>) {
    var rest := ElaborateCases(cases, i, t, table, output, false);
    match plan
    case None => rest.None?
    case Some(core) => i <= |cases| == |core| && rest == Some(core[i..])
  }

  lemma PlannedFirst(cases: seq<Case>, t: Type, table: Table, output: Option<Type>)
    ensures var plan := ElaborateCases(cases, 0, t, table, output, false);
            Planned(plan, cases, 0, t, table, output) && (plan.Some? ==> |plan.value| == |cases|)
  {
    hide ElaborateCases;
    var plan := ElaborateCases(cases, 0, t, table, output, false);
    if plan.Some? {
      assert plan.value[0..] == plan.value;
    }
  }

  lemma PlannedNext(plan: Option<seq<Case>>, cases: seq<Case>, i: nat, t: Type, table: Table, output: Option<Type>)
    requires i < |cases| && Planned(plan, cases, i, t, table, output)
    ensures var arm := ElaborateCase(cases[i], t, table, output, false);
            && (arm.Some? ==> Planned(plan, cases, i + 1, t, table, output))
            && (plan.Some? ==> |plan.value| == |cases| && arm == Some(plan.value[i]))
  {
    hide ElaborateCase;
    if plan.Some? {
      assert plan.value[i] == plan.value[i..][0] && plan.value[i + 1..] == plan.value[i..][1..];
    }
  }

  lemma PlannedLast(plan: Option<seq<Case>>, cases: seq<Case>, t: Type, table: Table, output: Option<Type>)
    requires Planned(plan, cases, |cases|, t, table, output)
    ensures plan.Some?
  {
  }

  /** Dispatch looks at the patterns only. */
  lemma {:induction false} SameDispatch(
    s: State, t: Type, cases: seq<Case>, core: seq<Case>, i: nat, base: nat, storage: nat, tag: Option<Operand>)
    requires |core| == |cases| && forall k :: 0 <= k < |cases| ==> core[k].pattern == cases[k].pattern
    ensures EmitDispatch(s, t, core, i, base, storage, tag) == EmitDispatch(s, t, cases, i, base, storage, tag)
    decreases |cases| - i
  {
    hide AnalyzeNode, Lowering.EmitCondition, Dispatched, Lowering.Define;
    if i < |cases| && Analyze(t, cases[i].pattern).Some? {
      match DispatchOf(Analyze(t, cases[i].pattern).value) {
        case Always =>
        case ByTag(k) =>
          if tag.Some? {
            var s1 := Lowering.Define(s, ICmp(s.registers, EQ, tag.value, Constant(Bits(64, k))));
            SameDispatch(Dispatched(s1, Register(s.registers), base + i), t, cases, core, i + 1, base, storage, tag);
          }
        case ByTest =>
          var r := Lowering.EmitCondition(s, cases[i].pattern, Place(storage, []));
          if r.Emitted? {
            SameDispatch(Dispatched(r.s, r.a, base + i), t, cases, core, i + 1, base, storage, tag);
          }
      }
    }
  }

  lemma LoopBlocksExist(s: State, t: State, a: Operand)
    requires |s.blocks| + 2 < |t.blocks|
    ensures 0 < |s.blocks| + 1 < |t.blocks|
  {
  }

  /** The arms emitted so far, followed by the rest. */
  function Prefixed(exits: seq<Option<nat>>, rest: Arms): Arms {
    if rest.ArmsRejected? then rest else Arms(rest.s, exits + rest.exits)
  }

  lemma PrefixedNone(rest: Arms)
    ensures Prefixed([], rest) == rest && AllEnded([])
  {
    if rest.Arms? {
      assert [] + rest.exits == rest.exits;
    }
  }

  lemma PrefixedStep(
    exits: seq<Option<nat>>, s: State, cases: seq<Case>, i: nat, base: nat, storage: nat, returnsValue: bool)
    requires i < |cases|
    ensures var a := EmitArm(Position(s, base + i), cases[i], storage, returnsValue, false);
            Prefixed(exits, EmitArms(s, cases, i, base, storage, returnsValue, false)) ==
              if a.Rejected? then ArmsRejected
              else Prefixed(exits + [ExitOf(a)], EmitArms(a.s, cases, i + 1, base, storage, returnsValue, false))
  {
    hide EmitArm;
    var a := EmitArm(Position(s, base + i), cases[i], storage, returnsValue, false);
    if a.Lowered? {
      var rest := EmitArms(a.s, cases, i + 1, base, storage, returnsValue, false);
      if rest.Arms? {
        assert exits + ([ExitOf(a)] + rest.exits) == exits + [ExitOf(a)] + rest.exits;
      }
    }
  }

  lemma PrefixedEnd(exits: seq<Option<nat>>, s: State, cases: seq<Case>, base: nat, storage: nat, returnsValue: bool)
    ensures Prefixed(exits, EmitArms(s, cases, |cases|, base, storage, returnsValue, false)) == Arms(s, exits)
  {
    assert exits + [] == exits;
  }

  /** The arrays record where the arms emitted so far end. */
  predicate ArmsEnd(exits: seq<Option<nat>>, terminated: seq<bool>, at: seq<nat>, blocks: nat) {
    && |exits| <= |terminated| == |at|
    && forall k :: 0 <= k < |exits| ==>
         exits[k] == (if terminated[k] then None else Some(at[k])) && 0 < at[k] < blocks
  }

  lemma ArmsEndNext(
    exits: seq<Option<nat>>, terminated: seq<bool>, at: seq<nat>, s: State, t: State, done: bool, exit: nat)
    requires ArmsEnd(exits, terminated, at, |s.blocks|) && |exits| < |at|
    requires |s.blocks| <= |t.blocks| && 0 < exit < |t.blocks|
    ensures ArmsEnd(exits + [if done then None else Some(exit)], terminated[|exits| := done], at[|exits| := exit],
                    |t.blocks|)
  {
  }

  lemma NoArmsEnd(terminated: seq<bool>, at: seq<nat>, blocks: nat)
    requires |terminated| == |at|
    ensures ArmsEnd([], terminated, at, blocks)
  {
  }

  /** No arm falls through. */
  predicate AllEnded(exits: seq<Option<nat>>) {
    forall k :: 0 <= k < |exits| ==> exits[k].None?
  }

  lemma AllEndedNext(exits: seq<Option<nat>>, e: Option<nat>)
    ensures AllEnded(exits + [e]) <==> e.None? && AllEnded(exits)
    ensures forall k :: 0 <= k < |exits| ==> (exits + [e])[k] == exits[k]
  {
    if AllEnded(exits + [e]) {
      assert (exits + [e])[|exits|] == e;
      forall k | 0 <= k < |exits|
        ensures exits[k].None?
      {
        assert (exits + [e])[k] == exits[k];
      }
    }
  }

  lemma WaitingFirst(s: State, lo: nat, n: nat)
    requires Waiting(s, lo, n) && n > 0
    ensures 0 < lo < |s.blocks| && Open(Position(s, lo))
  {
  }

  /** After the arms are appended, dispatch starts in the open insertion block. */
  lemma OpenMatchReady(s: State, t: Type, a: Operand, n: nat)
    requires Open(s)
    ensures var u := OpenMatch(s, t, a, n); Open(u) && |u.blocks| == |s.blocks| + n
  {
    hide OpenMatch, Touches;
    OpenMatchFrame(s, t, a, n);
    OpenMember(s, OpenMatch(s, t, a, n), {s.at} + Ids(|s.blocks|, n));
  }

  /** Dispatch leaves the arm blocks empty. */
  lemma SelectionWaits(s: State, t: Type, a: Operand, cases: seq<Case>)
    requires Open(s)
    ensures var d := EmitDispatch(OpenMatch(s, t, a, |cases|), t, cases, 0, |s.blocks|, Cells(s), MatchTag(s, t));
            d.Some? ==> Waiting(d.value, |s.blocks|, |cases|)
  {
    hide OpenMatch, EmitDispatch, Touches, Waiting;
    var u, n := OpenMatch(s, t, a, |cases|), |cases|;
    OpenMatchReady(s, t, a, n);
    ArmsWait(s, t, a, n);
    EmitDispatchFrame(u, t, cases, 0, |s.blocks|, Cells(s), MatchTag(s, t));
    var d := EmitDispatch(u, t, cases, 0, |s.blocks|, Cells(s), MatchTag(s, t));
    if d.Some? {
      assert !(|s.blocks| <= u.at < |s.blocks| + n);
      WaitingAfter(u, d.value, {}, |s.blocks|, n);
    }
  }

  lemma NoExits(s: State, exits: seq<Option<nat>>)
    requires forall k :: 0 <= k < |exits| ==> exits[k].None?
    ensures JoinArms(s, exits) == Lowered(s, true)
  {
  }

  lemma PositionHere(s: State)
    ensures Position(s, s.at) == s
  {
  }

  lemma GrowsAlong(s: State, t: State)
    requires Plain(s, t)
    ensures |s.blocks| <= |t.blocks|
  {
  }

  lemma RightKeepsMerge(s: State, a: Operand, isAnd: bool, t: State)
    requires Plain(OpenLogic(s, a, isAnd), t)
    ensures |s.blocks| + 1 < |t.blocks|
  {
  }

  lemma NewBlocksNone(s: State)
    ensures NewBlocks(s, 0) == s
  {
  }

  lemma {:induction false} NewBlocksNext(s: State, n: nat)
    ensures NewBlocks(s, n + 1) == NewBlock(NewBlocks(s, n))
    decreases n
  {
    if n > 0 {
      NewBlocksNext(NewBlock(s), n - 1);
    }
  }
}
