/**
 What emission touches: only the insertion block, the allocation block and blocks it appends. Every step
 accounts for the blocks that are left without a terminator.
 */
module LoweringFrame {
  import opened Integers
  import opened MachineIntegers
  import opened Syntax
  import opened Machine
  import opened Lowering

  /** Branch targets are body blocks of the same graph. */
  predicate TargetsIn(t: Terminator, blocks: nat) {
    match t
    case Br(target) => 0 < target < blocks
    case CondBr(_, yes, no) => 0 < yes < blocks && 0 < no < blocks
    case _ => true
  }

  predicate AllocatesNothing(b: Block) {
    forall i :: 0 <= i < |b.body| ==> !b.body[i].Alloca?
  }

  /** An allocation block holds one allocation per cell, in order, and nothing else. */
  predicate Allocates(b: Block) {
    forall i :: 0 <= i < |b.body| ==> b.body[i] == Alloca(i)
  }

  /**
   `t` comes from `s` by steps that leave all older blocks alone except the insertion block and the
   allocation block, which only grow; `open` is exactly the set of those that still lack a terminator.
   */
  ghost predicate Touches(s: State, t: State, open: set<nat>) {
    && |s.blocks| <= |t.blocks|
    && s.registers <= t.registers
    && (t.at == s.at || t.at >= |s.blocks|)
    && s.blocks[0].body <= t.blocks[0].body && t.blocks[0].end == s.blocks[0].end
    && s.blocks[s.at].body <= t.blocks[s.at].body
    && (forall b :: 0 < b < |s.blocks| && b != s.at ==> t.blocks[b] == s.blocks[b])
    && (Allocates(s.blocks[0]) ==> Allocates(t.blocks[0]))
    && (forall b :: b in open ==> 0 < b < |t.blocks| && (b == s.at || b >= |s.blocks|))
    && (forall b :: 0 < b < |t.blocks| && (b == s.at || b >= |s.blocks|) ==>
          && (t.blocks[b].end.None? <==> b in open)
          && (t.blocks[b].end.Some? ==> TargetsIn(t.blocks[b].end.value, |t.blocks|))
          && (b >= |s.blocks| || AllocatesNothing(s.blocks[b]) ==> AllocatesNothing(t.blocks[b])))
  }

  lemma TouchesNothing(s: State)
    requires Open(s)
    ensures Touches(s, s, {s.at})
  {
  }

  lemma TouchesThrough(s: State, t: State, p: set<nat>, u: State, q: set<nat>)
    requires Touches(s, t, p) && t.at in p && Touches(t, u, q)
    ensures Touches(s, u, p - {t.at} + q)
  {
  }

  lemma TouchesPut(s: State, t: State, p: set<nat>, i: Instruction)
    requires Touches(s, t, p) && t.at in p && !i.Alloca?
    ensures Touches(s, Put(t, i), p)
    ensures Touches(s, Lowering.Define(t, i), p)
  {
  }

  lemma TouchesAllocate(s: State, t: State, p: set<nat>)
    requires Touches(s, t, p)
    ensures Touches(s, Allocate(t), p)
  {
  }

  lemma TouchesEnd(s: State, t: State, p: set<nat>, end: Terminator)
    requires Touches(s, t, p) && t.at in p && TargetsIn(end, |t.blocks|)
    ensures Touches(s, End(t, end), p - {t.at})
  {
  }

  lemma TouchesNew(s: State, t: State, p: set<nat>)
    requires Touches(s, t, p)
    ensures Touches(s, NewBlock(t), p + {|t.blocks|})
  {
  }

  lemma TouchesPosition(s: State, t: State, p: set<nat>, b: nat)
    requires Touches(s, t, p) && b in p
    ensures Touches(s, Position(t, b), p)
  {
  }

  /** The `n` block ids from `lo`. */
  function Ids(lo: nat, n: nat): (ids: set<nat>)
    ensures forall b :: b in ids <==> lo <= b < lo + n
    decreases n
  {
    if n == 0 then {} else {lo} + Ids(lo + 1, n - 1)
  }

  lemma {:induction false} TouchesNews(s: State, t: State, p: set<nat>, n: nat)
    requires Touches(s, t, p)
    ensures var u := NewBlocks(t, n);
            && Touches(s, u, p + Ids(|t.blocks|, n))
            && |u.blocks| == |t.blocks| + n && u.at == t.at && u.locals == t.locals
    decreases n
  {
    if n == 0 {
      assert p + Ids(|t.blocks|, 0) == p;
    } else {
      TouchesNew(s, t, p);
      TouchesNews(s, NewBlock(t), p + {|t.blocks|}, n - 1);
      assert p + {|t.blocks|} + Ids(|t.blocks| + 1, n - 1) == p + Ids(|t.blocks|, n);
    }
  }

  // ----- expressions -----

  /** A step that leaves only the insertion block unended and keeps the local table. */
  ghost predicate Plain(s: State, t: State) {
    Touches(s, t, {t.at}) && t.locals == s.locals
  }

  /** Emission of a value is a plain step. */
  ghost predicate ValueFrame(s: State, r: Emission) {
    r.Emitted? ==> Plain(s, r.s) && Open(r.s)
  }

  lemma PlainHere(s: State)
    requires Open(s)
    ensures Plain(s, s)
  {
  }

  lemma TrapIfFrame(s: State, condition: Operand)
    requires Open(s)
    ensures Plain(s, TrapIf(s, condition)) && Open(TrapIf(s, condition))
  {
  }

  lemma DefineFrame(s: State, i: Instruction)
    requires Open(s) && !i.Alloca?
    ensures Plain(s, Lowering.Define(s, i)) && Open(Lowering.Define(s, i))
  {
    TouchesNothing(s);
  }

  lemma ThroughPlain(s: State, t: State, u: State)
    requires Plain(s, t) && Plain(t, u)
    ensures Plain(s, u)
  {
    TouchesThrough(s, t, {t.at}, u, {u.at});
    assert {t.at} - {t.at} + {u.at} == {u.at};
  }

  lemma DefineTrapFrame(s: State, i: Instruction, condition: Operand)
    requires Open(s) && !i.Alloca?
    ensures var t := TrapIf(Lowering.Define(s, i), condition);
            Plain(s, t) && Open(t)
  {
    DefineFrame(s, i);
    TrapIfFrame(Lowering.Define(s, i), condition);
    ThroughPlain(s, Lowering.Define(s, i), TrapIf(Lowering.Define(s, i), condition));
  }

  lemma DefineTwiceFrame(s: State, i: Instruction, j: Instruction)
    requires Open(s) && !i.Alloca? && !j.Alloca?
    ensures var t := Lowering.Define(Lowering.Define(s, i), j);
            Plain(s, t) && Open(t)
  {
    DefineFrame(s, i);
    DefineFrame(Lowering.Define(s, i), j);
    ThroughPlain(s, Lowering.Define(s, i), Lowering.Define(Lowering.Define(s, i), j));
  }

  lemma EmitCheckedFrame(s: State, op: ArithOp, t: IntType, a: Operand, b: Operand)
    requires Open(s)
    ensures EmitChecked(s, op, t, a, b).Emitted? && ValueFrame(s, EmitChecked(s, op, t, a, b))
  {
    hide Plain, TrapIf, Lowering.Define, Open;
    var r, wide := s.registers, WideBits(t.bits);
    var i1, i2 := Cast(r, Extension(t), t.bits, wide, a), Cast(r + 1, Extension(t), t.bits, wide, b);
    var i3 := Binary(r + 2, WideOp(op), Register(r), Register(r + 1));
    var i4 := Cast(r + 3, Trunc, wide, t.bits, Register(r + 2));
    var i5 := Cast(r + 4, Extension(t), t.bits, wide, Register(r + 3));
    var i6 := ICmp(r + 5, NE, Register(r + 2), Register(r + 4));
    var s2 := Lowering.Define(Lowering.Define(s, i1), i2);
    var s4 := Lowering.Define(Lowering.Define(s2, i3), i4);
    var s5 := Lowering.Define(s4, i5);
    var s7 := TrapIf(Lowering.Define(s5, i6), Register(r + 5));
    DefineTwiceFrame(s, i1, i2);
    DefineTwiceFrame(s2, i3, i4);
    ThroughPlain(s, s2, s4);
    DefineFrame(s4, i5);
    ThroughPlain(s, s4, s5);
    DefineTrapFrame(s5, i6, Register(r + 5));
    ThroughPlain(s, s5, s7);
    assert EmitChecked(s, op, t, a, b) == Emitted(s7, Register(r + 3));
  }

  lemma EmitQuotientFrame(s: State, op: ArithOp, t: IntType, a: Operand, b: Operand)
    requires Open(s)
    ensures EmitQuotient(s, op, t, a, b).Emitted? && ValueFrame(s, EmitQuotient(s, op, t, a, b))
  {
    hide Plain, TrapIf, Lowering.Define, Open;
    var r := s.registers;
    var s1 := TrapIf(Lowering.Define(s, ICmp(r, EQ, b, Constant(Bits(t.bits, 0)))), Register(r));
    DefineTrapFrame(s, ICmp(r, EQ, b, Constant(Bits(t.bits, 0))), Register(r));
    if t.signed {
      var i2 := ICmp(r + 1, EQ, a, Constant(Bits(t.bits, Pow2(t.bits - 1))));
      var i3 := ICmp(r + 2, EQ, b, Constant(Bits(t.bits, Pow2(t.bits) - 1)));
      var i4 := Binary(r + 3, IAnd, Register(r + 1), Register(r + 2));
      var s2 := Lowering.Define(s1, i2);
      var s3 := Lowering.Define(s2, i3);
      var s5 := TrapIf(Lowering.Define(s3, i4), Register(r + 3));
      DefineFrame(s1, i2);
      ThroughPlain(s, s1, s2);
      DefineFrame(s2, i3);
      ThroughPlain(s, s2, s3);
      DefineTrapFrame(s3, i4, Register(r + 3));
      ThroughPlain(s, s3, s5);
      DefineFrame(s5, Binary(r + 4, QuotientOp(op, t), a, b));
      ThroughPlain(s, s5, EmitQuotient(s, op, t, a, b).s);
    } else {
      DefineFrame(s1, Binary(r + 1, QuotientOp(op, t), a, b));
      ThroughPlain(s, s1, EmitQuotient(s, op, t, a, b).s);
    }
  }

  lemma EmitArithFrame(s: State, op: ArithOp, t: IntType, a: Operand, b: Operand)
    requires Open(s)
    ensures EmitArith(s, op, t, a, b).Emitted? && ValueFrame(s, EmitArith(s, op, t, a, b))
  {
    hide Plain, TrapIf, Lowering.Define, EmitQuotient, EmitChecked, Open;
    if op == Divide || op == Modulo {
      EmitQuotientFrame(s, op, t, a, b);
    } else if op == ArithOp.Add || op == Subtract || op == Multiply {
      EmitCheckedFrame(s, op, t, a, b);
    } else if op == ShiftLeft || op == ShiftRight {
      var r := s.registers;
      var s1 := TrapIf(Lowering.Define(s, ICmp(r, UGE, b, Constant(Bits(t.bits, t.bits)))), Register(r));
      DefineTrapFrame(s, ICmp(r, UGE, b, Constant(Bits(t.bits, t.bits))), Register(r));
      DefineFrame(s1, Binary(r + 1, ShiftOp(op, t), a, b));
      ThroughPlain(s, s1, EmitShift(s, op, t, a, b).s);
    } else {
      DefineFrame(s, Binary(s.registers, BitOp(op), a, b));
    }
  }

  /** Opening a short-circuit operator leaves the right operand's block and the merge block unended. */
  lemma OpenLogicFrame(s: State, a: Operand, isAnd: bool)
    requires Open(s)
    ensures Touches(s, OpenLogic(s, a, isAnd), {|s.blocks|, |s.blocks| + 1})
    ensures OpenLogic(s, a, isAnd).locals == s.locals && Open(OpenLogic(s, a, isAnd))
    ensures OpenLogic(s, a, isAnd).at == |s.blocks|
  {
  }

  lemma CloseLogicFrame(left: State, s: State, b: Operand)
    requires Touches(left, s, {s.at, |left.blocks| + 1}) && s.at != |left.blocks| + 1 && s.locals == left.locals
    ensures CloseLogic(left, s, b).Emitted? && ValueFrame(left, CloseLogic(left, s, b))
  {
  }

  lemma LogicFrame(s: State, s1: State, a: Operand, isAnd: bool, s2: State, b: Operand)
    requires Plain(s, s1) && Open(s1)
    requires Plain(OpenLogic(s1, a, isAnd), s2)
    ensures CloseLogic(s1, s2, b).Emitted? && ValueFrame(s, CloseLogic(s1, s2, b))
  {
    var right, merge := |s1.blocks|, |s1.blocks| + 1;
    OpenLogicFrame(s1, a, isAnd);
    TouchesThrough(s1, OpenLogic(s1, a, isAnd), {right, merge}, s2, {s2.at});
    assert {right, merge} - {right} + {s2.at} == {s2.at, merge};
    CloseLogicFrame(s1, s2, b);
    ThroughPlain(s, s1, CloseLogic(s1, s2, b).s);
  }

  lemma LogicIs(s: State, e: Expr)
    requires e.And? || e.Or?
    ensures EmitExpr(s, e) ==
            var l := EmitExpr(s, e.left);
            if l.Failed? then Failed else
            var r := EmitExpr(OpenLogic(l.s, l.a, e.And?), e.right);
            if r.Failed? then Failed else CloseLogic(l.s, r.s, r.a)
  {
    hide OpenLogic, CloseLogic;
  }

  lemma {:induction false} EmitExprFrame(s: State, e: Expr)
    requires Open(s)
    ensures ValueFrame(s, EmitExpr(s, e))
    decreases e, 1
  {
    hide Plain, TrapIf, Lowering.Define, EmitArith, OpenLogic, CloseLogic, Open;
    match e
    case IntLiteral(_, _) => PlainHere(s);
    case BoolLiteral(_) => PlainHere(s);
    case Read(x, path) =>
      var i := Newest(LocalNames(s.locals), x);
      if i.Some? {
        DefineFrame(s, Load(s.registers, Place(s.locals[i.value].cell, path)));
      }
    case Convert(from, to, operand) =>
      EmitExprFrame(s, operand);
      var r := EmitExpr(s, operand);
      if r.Emitted? && ConversionCast(from, to).Some? {
        DefineFrame(r.s, Cast(r.s.registers, ConversionCast(from, to).value, from.bits, to.bits, r.a));
        ThroughPlain(s, r.s, EmitConversion(r.s, from, to, r.a).s);
      }
    case Arith(op, t, left, right) =>
      EmitPairFrame(s, left, right, e);
      var l := EmitExpr(s, left);
      if l.Emitted? && EmitExpr(l.s, right).Emitted? {
        var r := EmitExpr(l.s, right);
        EmitArithFrame(r.s, op, t, l.a, r.a);
        ThroughPlain(s, r.s, EmitArith(r.s, op, t, l.a, r.a).s);
      }
    case Compare(cmp, t, left, right) =>
      EmitPairFrame(s, left, right, e);
      var l := EmitExpr(s, left);
      if l.Emitted? && EmitExpr(l.s, right).Emitted? {
        var r := EmitExpr(l.s, right);
        DefineFrame(r.s, ICmp(r.s.registers, ComparePredicate(cmp, t), l.a, r.a));
        ThroughPlain(s, r.s, EmitExpr(s, e).s);
      }
    case SameBool(negated, left, right) =>
      EmitPairFrame(s, left, right, e);
      var l := EmitExpr(s, left);
      if l.Emitted? && EmitExpr(l.s, right).Emitted? {
        var r := EmitExpr(l.s, right);
        DefineFrame(r.s, ICmp(r.s.registers, if negated then NE else EQ, l.a, r.a));
        ThroughPlain(s, r.s, EmitExpr(s, e).s);
      }
    case And(left, right) => LogicExprFrame(s, left, right, e);
    case Or(left, right) => LogicExprFrame(s, left, right, e);
    case Not(operand) => UnaryExprFrame(s, operand, e);
    case Negate(_, operand) => UnaryExprFrame(s, operand, e);
    case BitNot(_, operand) => UnaryExprFrame(s, operand, e);
  }

  lemma {:induction false} LogicExprFrame(s: State, left: Expr, right: Expr, e: Expr)
    requires Open(s) && (e.And? || e.Or?) && left == e.left && right == e.right
    ensures ValueFrame(s, EmitExpr(s, e))
    decreases e, 0
  {
    hide Plain, OpenLogic, CloseLogic, Open, EmitExpr;
    LogicIs(s, e);
    EmitExprFrame(s, left);
    var l := EmitExpr(s, left);
    if l.Emitted? {
      OpenLogicFrame(l.s, l.a, e.And?);
      EmitExprFrame(OpenLogic(l.s, l.a, e.And?), right);
      var r := EmitExpr(OpenLogic(l.s, l.a, e.And?), right);
      if r.Emitted? {
        LogicFrame(s, l.s, l.a, e.And?, r.s, r.a);
      }
    }
  }

  lemma {:induction false} UnaryExprFrame(s: State, operand: Expr, e: Expr)
    requires Open(s) && (e.Not? || e.Negate? || e.BitNot?) && operand == e.operand
    ensures ValueFrame(s, EmitExpr(s, e))
    decreases e, 0
  {
    hide Plain, TrapIf, Lowering.Define, EmitArith, Open;
    EmitExprFrame(s, operand);
    var r := EmitExpr(s, operand);
    if r.Emitted? {
      match e
      case Not(_) =>
        DefineFrame(r.s, Binary(r.s.registers, IXor, r.a, Constant(Bool(true))));
        ThroughPlain(s, r.s, EmitExpr(s, e).s);
      case Negate(t, _) =>
        EmitArithFrame(r.s, Subtract, t, Constant(Bits(t.bits, 0)), r.a);
        ThroughPlain(s, r.s, EmitExpr(s, e).s);
      case BitNot(t, _) =>
        DefineFrame(r.s, Binary(r.s.registers, IXor, r.a, Constant(Bits(t.bits, Pow2(t.bits) - 1))));
        ThroughPlain(s, r.s, EmitExpr(s, e).s);
    }
  }

  /** Operands of one expression `e`, left to right. */
  lemma {:induction false} EmitPairFrame(s: State, left: Expr, right: Expr, e: Expr)
    requires Open(s) && left < e && right < e
    ensures var l := EmitExpr(s, left);
            l.Emitted? && EmitExpr(l.s, right).Emitted? ==> ValueFrame(s, EmitExpr(l.s, right))
    decreases e, 0
  {
    EmitExprFrame(s, left);
    var l := EmitExpr(s, left);
    if l.Emitted? {
      EmitExprFrame(l.s, right);
      if EmitExpr(l.s, right).Emitted? {
        ThroughPlain(s, l.s, EmitExpr(l.s, right).s);
      }
    }
  }

  // ----- patterns -----

  lemma ExtractFrame(s: State, place: Place, tag: nat, index: nat)
    requires Open(s)
    ensures Plain(s, ExtractPayload(s, place, tag, index)) && Open(ExtractPayload(s, place, tag, index))
  {
  }

  lemma OpenTagTestFrame(s: State, tag: nat, place: Place)
    requires Open(s)
    ensures Touches(s, OpenTagTest(s, tag, place), {|s.blocks|, |s.blocks| + 1})
    ensures OpenTagTest(s, tag, place).locals == s.locals && Open(OpenTagTest(s, tag, place))
    ensures OpenTagTest(s, tag, place).at == |s.blocks|
  {
  }

  lemma CloseTagTestFrame(before: State, s: State, c: Operand)
    requires Touches(before, s, {s.at, |before.blocks| + 1}) && s.at != |before.blocks| + 1
    requires s.locals == before.locals
    ensures CloseTagTest(before, s, c).Emitted? && ValueFrame(before, CloseTagTest(before, s, c))
  {
  }

  lemma TagTestFrame(s: State, tag: nat, place: Place, s1: State, c: Operand)
    requires Open(s) && Plain(OpenTagTest(s, tag, place), s1)
    ensures CloseTagTest(s, s1, c).Emitted? && ValueFrame(s, CloseTagTest(s, s1, c))
  {
    var matched, merge := |s.blocks|, |s.blocks| + 1;
    OpenTagTestFrame(s, tag, place);
    TouchesThrough(s, OpenTagTest(s, tag, place), {matched, merge}, s1, {s1.at});
    assert {matched, merge} - {matched} + {s1.at} == {s1.at, merge};
    CloseTagTestFrame(s, s1, c);
  }

  lemma {:induction false} EmitConditionFrame(s: State, p: Pattern, place: Place)
    requires Open(s)
    ensures EmitCondition(s, p, place).Emitted? && ValueFrame(s, EmitCondition(s, p, place))
    decreases p
  {
    match p
    case Wildcard => PlainHere(s);
    case Binding(_) => PlainHere(s);
    case StructPattern(fields) => EmitFieldConditionsFrame(s, fields, 0, place, Constant(Bool(true)));
    case EnumPattern(tag, payloads) =>
      OpenTagTestFrame(s, tag, place);
      var s0 := OpenTagTest(s, tag, place);
      EmitPayloadConditionsFrame(s0, payloads, 0, place, tag, Constant(Bool(true)));
      var r := EmitPayloadConditions(s0, payloads, 0, place, tag, Constant(Bool(true)));
      TagTestFrame(s, tag, place, r.s, r.a);
  }

  lemma {:induction false} EmitFieldConditionsFrame(
    s: State, fields: seq<FieldPattern>, i: nat, place: Place, acc: Operand)
    requires Open(s)
    ensures var r := EmitFieldConditions(s, fields, i, place, acc); r.Emitted? && ValueFrame(s, r)
    decreases fields, |fields| - i
  {
    hide Plain, Open, Lowering.Define, EmitFieldCondition;
    if i >= |fields| {
      PlainHere(s);
    } else {
      EmitFieldConditionFrame(s, fields[i], place);
      var r := EmitFieldCondition(s, fields[i], place);
      DefineFrame(r.s, Binary(r.s.registers, IAnd, acc, r.a));
      var r2 := Conjoin(r.s, acc, r.a);
      ThroughPlain(s, r.s, r2.s);
      EmitFieldConditionsFrame(r2.s, fields, i + 1, place, r2.a);
      ThroughPlain(s, r2.s, EmitFieldConditions(r2.s, fields, i + 1, place, r2.a).s);
    }
  }

  lemma {:induction false} EmitFieldConditionFrame(s: State, f: FieldPattern, place: Place)
    requires Open(s)
    ensures var r := EmitFieldCondition(s, f, place); r.Emitted? && ValueFrame(s, r)
    decreases f
  {
    EmitConditionFrame(s, f.pattern, FieldPlace(place, f.index));
  }

  lemma {:induction false} EmitPayloadConditionsFrame(
    s: State, payloads: seq<Pattern>, i: nat, place: Place, tag: nat, acc: Operand)
    requires Open(s)
    ensures var r := EmitPayloadConditions(s, payloads, i, place, tag, acc); r.Emitted? && ValueFrame(s, r)
    decreases payloads, |payloads| - i
  {
    hide Plain, Open, Lowering.Define, EmitCondition, ExtractPayload;
    if i >= |payloads| {
      PlainHere(s);
    } else {
      var s0 := ExtractPayload(s, place, tag, i);
      ExtractFrame(s, place, tag, i);
      EmitConditionFrame(s0, payloads[i], Place(Cells(s), []));
      var r := EmitCondition(s0, payloads[i], Place(Cells(s), []));
      ThroughPlain(s, s0, r.s);
      DefineFrame(r.s, Binary(r.s.registers, IAnd, acc, r.a));
      var r2 := Conjoin(r.s, acc, r.a);
      ThroughPlain(s, r.s, r2.s);
      EmitPayloadConditionsFrame(r2.s, payloads, i + 1, place, tag, r2.a);
      ThroughPlain(s, r2.s, EmitPayloadConditions(r2.s, payloads, i + 1, place, tag, r2.a).s);
    }
  }

  /** A step that leaves only the insertion block unended and may add names to the local table. */
  ghost predicate Naming(s: State, t: State) {
    Touches(s, t, {t.at}) && s.locals <= t.locals && Open(t)
  }

  lemma NamingThrough(s: State, t: State, u: State)
    requires Naming(s, t) && Naming(t, u)
    ensures Naming(s, u)
  {
    TouchesThrough(s, t, {t.at}, u, {u.at});
    assert {t.at} - {t.at} + {u.at} == {u.at};
  }

  lemma {:induction false} EmitBindFrame(s: State, p: Pattern, place: Place)
    requires Open(s)
    ensures Naming(s, EmitBind(s, p, place))
    decreases p
  {
    match p
    case Wildcard =>
    case Binding(_) =>
    case StructPattern(fields) => EmitBindFieldsFrame(s, fields, 0, place);
    case EnumPattern(tag, payloads) => EmitBindPayloadsFrame(s, payloads, 0, place, tag);
  }

  lemma {:induction false} EmitBindFieldsFrame(s: State, fields: seq<FieldPattern>, i: nat, place: Place)
    requires Open(s)
    ensures Naming(s, EmitBindFields(s, fields, i, place))
    decreases fields, |fields| - i
  {
    if i < |fields| {
      EmitBindFieldFrame(s, fields[i], place);
      var s1 := EmitBindField(s, fields[i], place);
      EmitBindFieldsFrame(s1, fields, i + 1, place);
      NamingThrough(s, s1, EmitBindFields(s1, fields, i + 1, place));
    }
  }

  lemma {:induction false} EmitBindFieldFrame(s: State, f: FieldPattern, place: Place)
    requires Open(s)
    ensures Naming(s, EmitBindField(s, f, place))
    decreases f
  {
    EmitBindFrame(s, f.pattern, FieldPlace(place, f.index));
  }

  lemma {:induction false} EmitBindPayloadsFrame(s: State, payloads: seq<Pattern>, i: nat, place: Place, tag: nat)
    requires Open(s)
    ensures Naming(s, EmitBindPayloads(s, payloads, i, place, tag))
    decreases payloads, |payloads| - i
  {
    if i < |payloads| {
      var s0 := ExtractPayload(s, place, tag, i);
      ExtractFrame(s, place, tag, i);
      EmitBindFrame(s0, payloads[i], Place(Cells(s), []));
      var s1 := EmitBind(s0, payloads[i], Place(Cells(s), []));
      NamingThrough(s, s0, s1);
      EmitBindPayloadsFrame(s1, payloads, i + 1, place, tag);
      NamingThrough(s, s1, EmitBindPayloads(s1, payloads, i + 1, place, tag));
    }
  }
}
