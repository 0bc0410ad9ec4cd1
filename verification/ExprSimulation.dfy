/** Running the code emitted for an expression computes its value, or traps exactly when the source does. */
module ExprSimulation {
  import opened Integers
  import opened MachineIntegers
  import opened Options
  import opened Syntax
  import opened Source
  import opened Machine
  import opened Lowering
  import opened LoweringFrame
  import opened Simulation

  // ----- checked operators -----

  lemma CheckedGoes(g: Graph, s: State, c: Config, op: ArithOp, t: IntType, a: Operand, b: Operand, v: Value, w: Value)
    returns (d: Config)
    requires op in {ArithOp.Add, Subtract, Multiply} && IsInteger(v, t) && IsInteger(w, t)
    requires Ready(g, s, c) && Holds(a, s, c, v) && Holds(b, s, c, w)
    requires Completes(g, EmitChecked(s, op, t, a, b).s)
    ensures Simulates(g, s, c, EmitChecked(s, op, t, a, b), d, EvalArith(op, t, v, w))
  {
    hide Goes, Completes, Touches, Lowering.Define, Open, Stops, Backed, AtEnd, TrapIf, Plain, Kept;
    hide Cells, EvalArith, ApplyBinary, ApplyCast, ApplyCompare, CastResult, BinaryResult, Overflows, SourceArith, WideResult, NarrowResult, Widened, Pow2, Encode, Meaning, ExecInstruction, Machine.Define;
    var r, wide := s.registers, WideBits(t.bits);
    var i1 := Cast(r, Extension(t), t.bits, wide, a);
    var i2 := Cast(r + 1, Extension(t), t.bits, wide, b);
    var i3 := Binary(r + 2, WideOp(op), Register(r), Register(r + 1));
    var i4 := Cast(r + 3, Trunc, wide, t.bits, Register(r + 2));
    var i5 := Cast(r + 4, Extension(t), t.bits, wide, Register(r + 3));
    var i6 := ICmp(r + 5, NE, Register(r + 2), Register(r + 4));
    var s1 := Lowering.Define(s, i1);
    var s2 := Lowering.Define(s1, i2);
    var s3 := Lowering.Define(s2, i3);
    var s4 := Lowering.Define(s3, i4);
    var s5 := Lowering.Define(s4, i5);
    CheckedStates(g, s, op, t, a, b);
    CheckedValues(op, t, v, w);
    GoesNowhere(g, s, c);
    var x, y := Bits(wide, Widened(t, v.bits)), Bits(wide, Widened(t, w.bits));
    var n := NarrowResult(op, t, v.bits, w.bits);
    var z, z' := Bits(wide, WideResult(op, t, v.bits, w.bits)), Bits(wide, Widened(t, n));
    var c1 := CastNext(g, s, c, s, c, Extension(t), t.bits, wide, a, v, x);
    var c2 := CastNext(g, s, c, s1, c1, Extension(t), t.bits, wide, b, w, y);
    var c3 := BinaryNext(g, s, c, s2, c2, WideOp(op), Register(r), Register(r + 1), x, y, z);
    var c4 := CastNext(g, s, c, s3, c3, Trunc, wide, t.bits, Register(r + 2), z, Bits(t.bits, n));
    var c5 := CastNext(g, s, c, s4, c4, Extension(t), t.bits, wide, Register(r + 3), Bits(t.bits, n), z');
    d := CompareTrapNext(g, s, c, s5, c5, NE, Register(r + 2), Register(r + 4), z, z', Overflows(op, t, v.bits, w.bits));
  }

  /** Every state along checked arithmetic is completed by the final graph. */
  lemma CheckedStates(g: Graph, s: State, op: ArithOp, t: IntType, a: Operand, b: Operand)
    requires Open(s) && Completes(g, EmitChecked(s, op, t, a, b).s)
    ensures var r, wide := s.registers, WideBits(t.bits);
            var s1 := Lowering.Define(s, Cast(r, Extension(t), t.bits, wide, a));
            var s2 := Lowering.Define(s1, Cast(r + 1, Extension(t), t.bits, wide, b));
            var s3 := Lowering.Define(s2, Binary(r + 2, WideOp(op), Register(r), Register(r + 1)));
            var s4 := Lowering.Define(s3, Cast(r + 3, Trunc, wide, t.bits, Register(r + 2)));
            var s5 := Lowering.Define(s4, Cast(r + 4, Extension(t), t.bits, wide, Register(r + 3)));
            && Completes(g, s1) && Completes(g, s2) && Completes(g, s3) && Completes(g, s4) && Completes(g, s5)
            && Open(s1) && Open(s2) && Open(s3) && Open(s4) && Open(s5)
            && s1.registers == r + 1 && s2.registers == r + 2 && s3.registers == r + 3
            && s4.registers == r + 4 && s5.registers == r + 5
  {
    hide Lowering.Define, Put, TrapIf, Completes, Touches, Open, Cells, WideBits, Extension, Pow2;
    var r, wide := s.registers, WideBits(t.bits);
    var s1 := Lowering.Define(s, Cast(r, Extension(t), t.bits, wide, a));
    var s2 := Lowering.Define(s1, Cast(r + 1, Extension(t), t.bits, wide, b));
    var s3 := Lowering.Define(s2, Binary(r + 2, WideOp(op), Register(r), Register(r + 1)));
    var s4 := Lowering.Define(s3, Cast(r + 3, Trunc, wide, t.bits, Register(r + 2)));
    var s5 := Lowering.Define(s4, Cast(r + 4, Extension(t), t.bits, wide, Register(r + 3)));
    DefineFrame(s, Cast(r, Extension(t), t.bits, wide, a));
    DefineFrame(s1, Cast(r + 1, Extension(t), t.bits, wide, b));
    DefineFrame(s2, Binary(r + 2, WideOp(op), Register(r), Register(r + 1)));
    DefineFrame(s3, Cast(r + 3, Trunc, wide, t.bits, Register(r + 2)));
    DefineFrame(s4, Cast(r + 4, Extension(t), t.bits, wide, Register(r + 3)));
    var i6 := ICmp(r + 5, NE, Register(r + 2), Register(r + 4));
    DefineTrapFrame(s5, i6, Register(r + 5));
    var u := TrapIf(Lowering.Define(s5, i6), Register(r + 5));
    CompletesEarlier(g, s5, u, {u.at});
    CompletesEarlier(g, s4, s5, {s5.at});
    CompletesEarlier(g, s3, s4, {s4.at});
    CompletesEarlier(g, s2, s3, {s3.at});
    CompletesEarlier(g, s1, s2, {s2.at});
  }

  lemma CheckedValues(op: ArithOp, t: IntType, v: Value, w: Value)
    requires op in {ArithOp.Add, Subtract, Multiply} && IsInteger(v, t) && IsInteger(w, t)
    ensures var wide := WideBits(t.bits);
            var x, y := Bits(wide, Widened(t, v.bits)), Bits(wide, Widened(t, w.bits));
            var z, n := Bits(wide, WideResult(op, t, v.bits, w.bits)), Bits(t.bits, NarrowResult(op, t, v.bits, w.bits));
            var z' := Bits(wide, Widened(t, n.bits));
            && ApplyCast(Extension(t), t.bits, wide, Some(v)) == Some(x)
            && ApplyCast(Extension(t), t.bits, wide, Some(w)) == Some(y)
            && ApplyBinary(WideOp(op), Some(x), Some(y)) == Some(z)
            && ApplyCast(Trunc, wide, t.bits, Some(z)) == Some(n)
            && ApplyCast(Extension(t), t.bits, wide, Some(n)) == Some(z')
            && ApplyCompare(NE, Some(z), Some(z')) == Some(Bool(Overflows(op, t, v.bits, w.bits)))
            && EvalArith(op, t, v, w) == if Overflows(op, t, v.bits, w.bits) then Aborts else Yields(n)
  {
    hide Pow2, Meaning, SourceArith, Encode;
    CheckedArithmeticExact(op, t, v.bits, w.bits);
    EncodeOfMeaning(NarrowResult(op, t, v.bits, w.bits), t);
  }

  // ----- division, shifts and bitwise operators -----

  /** The pattern of a defined quotient or remainder. */
  function QuotientBits(op: ArithOp, t: IntType, a: nat, b: nat): Value {
    var r := BinaryResult(QuotientOp(op, t), t.bits, a, b);
    Bits(t.bits, if r.Some? then r.value else 0)
  }

  lemma AndOfBools(x: bool, y: bool)
    ensures ApplyBinary(IAnd, Some(Bool(x)), Some(Bool(y))) == Some(Bool(x && y))
  {
    assert Pow2(1) == 2;
    assert Bitwise(BitAnd, 0, 0, 0) == 0;
  }

  lemma QuotientValues(op: ArithOp, t: IntType, v: Value, w: Value)
    requires op in {Divide, Modulo} && IsInteger(v, t) && IsInteger(w, t)
    ensures var min, minusOne := Pow2(t.bits - 1), Pow2(t.bits) - 1;
            && ApplyCompare(EQ, Some(w), Some(Bits(t.bits, 0))) == Some(Bool(w.bits == 0))
            && ApplyCompare(EQ, Some(v), Some(Bits(t.bits, min))) == Some(Bool(v.bits == min))
            && ApplyCompare(EQ, Some(w), Some(Bits(t.bits, minusOne))) == Some(Bool(w.bits == minusOne))
            && (DivisionTraps(t, v.bits, w.bits) ==> EvalArith(op, t, v, w) == Aborts)
            && (!DivisionTraps(t, v.bits, w.bits) ==>
                  && ApplyBinary(QuotientOp(op, t), Some(v), Some(w)) == Some(QuotientBits(op, t, v.bits, w.bits))
                  && EvalArith(op, t, v, w) == Yields(QuotientBits(op, t, v.bits, w.bits)))
  {
    hide Pow2, Meaning, SourceArith, Encode, BinaryResult, DivisionTraps;
    DivisionExact(op, t, v.bits, w.bits);
    var r := BinaryResult(QuotientOp(op, t), t.bits, v.bits, w.bits);
    if r.Some? && !DivisionTraps(t, v.bits, w.bits) {
      EncodeOfMeaning(r.value, t);
    }
  }

  /** The states along a division, from the zero test to the signed overflow test. */
  lemma QuotientStates(g: Graph, s: State, op: ArithOp, t: IntType, a: Operand, b: Operand)
    requires Open(s) && Completes(g, EmitQuotient(s, op, t, a, b).s)
    ensures var r := s.registers;
            var s1 := TrapIf(Lowering.Define(s, ICmp(r, EQ, b, Constant(Bits(t.bits, 0)))), Register(r));
            && Completes(g, s1) && Open(s1) && s1.registers == r + 1
            && (t.signed ==>
                  var s2 := Lowering.Define(s1, ICmp(r + 1, EQ, a, Constant(Bits(t.bits, Pow2(t.bits - 1)))));
                  var s3 := Lowering.Define(s2, ICmp(r + 2, EQ, b, Constant(Bits(t.bits, Pow2(t.bits) - 1))));
                  var s5 := TrapIf(Lowering.Define(s3, Binary(r + 3, IAnd, Register(r + 1), Register(r + 2))), Register(r + 3));
                  && Completes(g, s2) && Open(s2) && s2.registers == r + 2
                  && Completes(g, s3) && Open(s3) && s3.registers == r + 3
                  && Completes(g, s5) && Open(s5) && s5.registers == r + 4)
  {
    hide Plain, TrapIf, Lowering.Define, Open, Completes, Pow2;
    var r := s.registers;
    var s1 := TrapIf(Lowering.Define(s, ICmp(r, EQ, b, Constant(Bits(t.bits, 0)))), Register(r));
    DefineTrapFrame(s, ICmp(r, EQ, b, Constant(Bits(t.bits, 0))), Register(r));
    if t.signed {
      var i2 := ICmp(r + 1, EQ, a, Constant(Bits(t.bits, Pow2(t.bits - 1))));
      var i3 := ICmp(r + 2, EQ, b, Constant(Bits(t.bits, Pow2(t.bits) - 1)));
      var i4 := Binary(r + 3, IAnd, Register(r + 1), Register(r + 2));
      var s2 := Lowering.Define(s1, i2);
      var s3 := Lowering.Define(s2, i3);
      var s5 := TrapIf(Lowering.Define(s3, i4), Register(r + 3));
      DefineFrame(s1, i2);
      DefineFrame(s2, i3);
      DefineTrapFrame(s3, i4, Register(r + 3));
      DefineEarlier(g, s5, Binary(r + 4, QuotientOp(op, t), a, b));
      PlainEarlier(g, s3, s5);
      DefineEarlier(g, s2, i3);
      DefineEarlier(g, s1, i2);
    } else {
      DefineEarlier(g, s1, Binary(r + 1, QuotientOp(op, t), a, b));
    }
  }

  lemma QuotientGoes(g: Graph, s: State, c: Config, op: ArithOp, t: IntType, a: Operand, b: Operand, v: Value, w: Value)
    returns (d: Config)
    requires op in {Divide, Modulo} && IsInteger(v, t) && IsInteger(w, t)
    requires Ready(g, s, c) && Holds(a, s, c, v) && Holds(b, s, c, w)
    requires Completes(g, EmitQuotient(s, op, t, a, b).s)
    ensures Simulates(g, s, c, EmitQuotient(s, op, t, a, b), d, EvalArith(op, t, v, w))
  {
    hide Goes, Completes, Touches, Lowering.Define, Open, Stops, Backed, AtEnd, TrapIf, Plain, Kept, Cells;
    hide EvalArith, ApplyBinary, ApplyCompare, BinaryResult, Pow2, ExecInstruction, Machine.Define, QuotientBits;
    var r := s.registers;
    var zero, min, minusOne := Bits(t.bits, 0), Bits(t.bits, Pow2(t.bits - 1)), Bits(t.bits, Pow2(t.bits) - 1);
    QuotientStates(g, s, op, t, a, b);
    QuotientValues(op, t, v, w);
    GoesNowhere(g, s, c);
    var s1 := TrapIf(Lowering.Define(s, ICmp(r, EQ, b, Constant(zero))), Register(r));
    var q := QuotientBits(op, t, v.bits, w.bits);
    d := CompareTrapNext(g, s, c, s, c, EQ, b, Constant(zero), w, zero, w.bits == 0);
    if w.bits != 0 {
      HoldsThrough(a, v, g, s, c, s1, d);
      HoldsThrough(b, w, g, s, c, s1, d);
      if t.signed {
        d := OverflowTestGoes(g, s, c, s1, d, t, a, b, v, w);
        if !DivisionTraps(t, v.bits, w.bits) {
          d := BinaryNext(g, s, c, OverflowTested(s1, t, a, b), d, QuotientOp(op, t), a, b, v, w, q);
        }
      } else {
        d := BinaryNext(g, s, c, s1, d, QuotientOp(op, t), a, b, v, w, q);
      }
    }
  }

  /** The state after the signed overflow test of a division. */
  function OverflowTested(s: State, t: IntType, a: Operand, b: Operand): State {
    var r := s.registers;
    var s2 := Lowering.Define(s, ICmp(r, EQ, a, Constant(Bits(t.bits, Pow2(t.bits - 1)))));
    var s3 := Lowering.Define(s2, ICmp(r + 1, EQ, b, Constant(Bits(t.bits, Pow2(t.bits) - 1))));
    TrapIf(Lowering.Define(s3, Binary(r + 2, IAnd, Register(r), Register(r + 1))), Register(r + 2))
  }

  lemma OverflowTestGoes(
    g: Graph, s: State, c: Config, s1: State, c1: Config, t: IntType, a: Operand, b: Operand, v: Value, w: Value)
    returns (d: Config)
    requires t.signed && IsInteger(v, t) && IsInteger(w, t) && w.bits != 0
    requires Open(s1) && Goes(g, s, c, s1, c1) && Holds(a, s1, c1, v) && Holds(b, s1, c1, w)
    requires var s2 := Lowering.Define(s1, ICmp(s1.registers, EQ, a, Constant(Bits(t.bits, Pow2(t.bits - 1)))));
             var s3 := Lowering.Define(s2, ICmp(s1.registers + 1, EQ, b, Constant(Bits(t.bits, Pow2(t.bits) - 1))));
             Completes(g, s2) && Open(s2) && Completes(g, s3) && Open(s3)
    requires Completes(g, OverflowTested(s1, t, a, b))
    ensures DivisionTraps(t, v.bits, w.bits) ==> Stops(g, c, TrapStop)
    ensures !DivisionTraps(t, v.bits, w.bits) ==>
              var s5 := OverflowTested(s1, t, a, b); Goes(g, s, c, s5, d) && Holds(a, s5, d, v) && Holds(b, s5, d, w)
  {
    hide Goes, Completes, Open, Stops, Backed, AtEnd, TrapIf, Kept, Cells, ApplyBinary, ApplyCompare, Pow2, Lowering.Define;
    QuotientValues(Divide, t, v, w);
    var r := s1.registers;
    var min, minusOne := Bits(t.bits, Pow2(t.bits - 1)), Bits(t.bits, Pow2(t.bits) - 1);
    var x, y := v.bits == min.bits, w.bits == minusOne.bits;
    var s2 := Lowering.Define(s1, ICmp(r, EQ, a, Constant(min)));
    var s3 := Lowering.Define(s2, ICmp(r + 1, EQ, b, Constant(minusOne)));
    var c2 := CompareNext(g, s, c, s1, c1, EQ, a, Constant(min), v, min, Bool(x));
    var c3 := CompareNext(g, s, c, s2, c2, EQ, b, Constant(minusOne), w, minusOne, Bool(y));
    AndOfBools(x, y);
    d := TrapNext(g, s, c, s3, c3, Binary(r + 2, IAnd, Register(r), Register(r + 1)), x && y);
  }

  lemma ShiftGoes(g: Graph, s: State, c: Config, op: ArithOp, t: IntType, a: Operand, b: Operand, v: Value, w: Value)
    returns (d: Config)
    requires op in {ShiftLeft, ShiftRight} && IsInteger(v, t) && IsInteger(w, t)
    requires Ready(g, s, c) && Holds(a, s, c, v) && Holds(b, s, c, w)
    requires Completes(g, EmitShift(s, op, t, a, b).s)
    ensures Simulates(g, s, c, EmitShift(s, op, t, a, b), d, EvalArith(op, t, v, w))
  {
    hide Goes, Completes, Touches, Lowering.Define, Open, Stops, Backed, AtEnd, TrapIf, Plain, Kept, Cells;
    hide EvalArith, ApplyBinary, ApplyCompare, BinaryResult, Pow2, ExecInstruction, Machine.Define;
    var r := s.registers;
    var limit := Bits(t.bits, t.bits);
    var s1 := TrapIf(Lowering.Define(s, ICmp(r, UGE, b, Constant(limit))), Register(r));
    DefineTrapFrame(s, ICmp(r, UGE, b, Constant(limit)), Register(r));
    DefineEarlier(g, s1, Binary(r + 1, ShiftOp(op, t), a, b));
    ShiftValues(op, t, v, w);
    GoesNowhere(g, s, c);
    d := CompareTrapNext(g, s, c, s, c, UGE, b, Constant(limit), w, limit, ShiftTraps(t, w.bits));
    if !ShiftTraps(t, w.bits) {
      HoldsThrough(a, v, g, s, c, s1, d);
      HoldsThrough(b, w, g, s, c, s1, d);
      d := BinaryNext(g, s, c, s1, d, ShiftOp(op, t), a, b, v, w, EvalArith(op, t, v, w).value);
    }
  }

  lemma ShiftValues(op: ArithOp, t: IntType, v: Value, w: Value)
    requires op in {ShiftLeft, ShiftRight} && IsInteger(v, t) && IsInteger(w, t)
    ensures ApplyCompare(UGE, Some(w), Some(Bits(t.bits, t.bits))) == Some(Bool(ShiftTraps(t, w.bits)))
    ensures ShiftTraps(t, w.bits) ==> EvalArith(op, t, v, w) == Aborts
    ensures !ShiftTraps(t, w.bits) ==>
              EvalArith(op, t, v, w).Yields? && ApplyBinary(ShiftOp(op, t), Some(v), Some(w)) == Some(EvalArith(op, t, v, w).value)
  {
    hide Pow2, Meaning, SourceArith, Encode, BinaryResult;
    ShiftExact(op, t, v.bits, w.bits);
    if !ShiftTraps(t, w.bits) {
      EncodeOfMeaning(BinaryResult(ShiftOp(op, t), t.bits, v.bits, w.bits).value, t);
    }
  }

  lemma BitwiseValues(op: ArithOp, t: IntType, v: Value, w: Value)
    requires op in {BitAnd, BitOr, BitXor} && IsInteger(v, t) && IsInteger(w, t)
    ensures EvalArith(op, t, v, w).Yields?
    ensures ApplyBinary(BitOp(op), Some(v), Some(w)) == Some(EvalArith(op, t, v, w).value)
  {
    hide Pow2, Meaning, Encode, Bitwise, SourceArith;
    BitwiseExact(op, t, v.bits, w.bits);
    EncodeOfMeaning(BinaryResult(BitOp(op), t.bits, v.bits, w.bits).value, t);
  }

  /** Every arithmetic operator is simulated: the machine traps exactly when the source does. */
  lemma ArithGoes(g: Graph, s: State, c: Config, op: ArithOp, t: IntType, a: Operand, b: Operand, v: Value, w: Value)
    returns (d: Config)
    requires Ready(g, s, c) && Holds(a, s, c, v) && Holds(b, s, c, w)
    requires EmitArith(s, op, t, a, b).Emitted? && Completes(g, EmitArith(s, op, t, a, b).s)
    ensures Simulates(g, s, c, EmitArith(s, op, t, a, b), d, EvalArith(op, t, v, w))
  {
    hide Goes, Completes, Lowering.Define, Open, Stops, Backed, AtEnd, ApplyBinary;
    if !IsInteger(v, t) || !IsInteger(w, t) {
      d := c;
    } else if op == Divide || op == Modulo {
      d := QuotientGoes(g, s, c, op, t, a, b, v, w);
    } else if op == ArithOp.Add || op == Subtract || op == Multiply {
      d := CheckedGoes(g, s, c, op, t, a, b, v, w);
    } else if op == ShiftLeft || op == ShiftRight {
      d := ShiftGoes(g, s, c, op, t, a, b, v, w);
    } else {
      BitwiseValues(op, t, v, w);
      GoesNowhere(g, s, c);
      d := BinaryNext(g, s, c, s, c, BitOp(op), a, b, v, w, EvalArith(op, t, v, w).value);
    }
  }

  // ----- short-circuit operators -----

  /** The states of a short-circuit operator whose left operand was emitted up to `s`. */
  lemma LogicStates(g: Graph, s: State, a: Operand, isAnd: bool, s2: State, b: Operand)
    requires Open(s) && Plain(OpenLogic(s, a, isAnd), s2) && Completes(g, CloseLogic(s, s2, b).s)
    ensures var u := OpenLogic(s, a, isAnd);
            && Open(u) && Open(s2) && Completes(g, s) && Completes(g, u) && Completes(g, s2)
            && s2.at != |s.blocks| + 1 < |s2.blocks| && s2.blocks[|s.blocks| + 1] == Block([], None)
            && s2.locals == s.locals && Cells(s) < Cells(s2) && s.registers <= s2.registers
  {
    var u := OpenLogic(s, a, isAnd);
    OpenLogicFrame(s, a, isAnd);
    assert u.blocks[|s.blocks| + 1] == Block([], None);
    var stored := Put(s2, Store(Cells(s), b));
    assert Completes(g, stored);
    assert Completes(g, s2) by {
      assert s2.blocks[s2.at].body <= stored.blocks[s2.at].body;
    }
    CompletesEarlier(g, u, s2, {s2.at});
    CompletesEarlier(g, s, u, {|s.blocks|, |s.blocks| + 1});
  }

  /** The left value is kept in a fresh cell; only the deciding value enters the right operand's block. */
  lemma LogicEnters(g: Graph, s: State, c: Config, a: Operand, isAnd: bool, x: bool) returns (d: Config)
    requires Ready(g, s, c) && Holds(a, s, c, Bool(x)) && Completes(g, OpenLogic(s, a, isAnd))
    ensures d.registers == c.registers && d.cells == c.cells[Cells(s) := Some(Bool(x))]
    ensures x == isAnd ==> Goes(g, s, c, OpenLogic(s, a, isAnd), d)
    ensures x != isAnd ==> Reaches(g, c, 0, d) && Backed(g, d) && d.block == |s.blocks| + 1 && d.pc == 0
  {
    var right := |s.blocks|;
    var stored := Put(Allocate(s), Store(Cells(s), a));
    var waiting := NewBlock(NewBlock(stored));
    var end := if isAnd then CondBr(a, right, right + 1) else CondBr(a, right + 1, right);
    var u := OpenLogic(s, a, isAnd);
    assert u.blocks == End(waiting, end).blocks;
    assert Completes(g, stored) by {
      assert u.blocks[s.at] == Block(stored.blocks[s.at].body, Some(end));
    }
    var c1 := FreshStoreGoes(g, s, c, Store(Cells(s), a), Bool(x));
    d := EndGoes(g, waiting, c1, end, if x == isAnd then right else right + 1);
    ReachesThrough(g, c, 0, c1, 1, d);
    ReachesFewer(g, c, 1, 0, d);
  }

  /** At the merge block, the kept value is reloaded as the result. */
  lemma LogicReloads(g: Graph, s: State, c: Config, s2: State, b: Operand, x: bool, d: Config) returns (e: Config)
    requires Completes(g, CloseLogic(s, s2, b).s)
    requires |s.blocks| + 1 < |s2.blocks| && s2.blocks[|s.blocks| + 1] == Block([], None) && s2.at != |s.blocks| + 1
    requires s.registers <= s2.registers && Cells(s) < Cells(s2)
    requires Reaches(g, c, 0, d) && Backed(g, d) && d.block == |s.blocks| + 1 && d.pc == 0 && Kept(s, c, d)
    requires Cells(s) in d.cells && d.cells[Cells(s)] == Some(Bool(x))
    ensures var r := CloseLogic(s, s2, b); Goes(g, s, c, r.s, e) && Holds(r.a, r.s, e, Bool(x))
  {
    var merge := |s.blocks| + 1;
    var r := CloseLogic(s, s2, b);
    var i := Load(s2.registers, Place(Cells(s), []));
    assert r.s.at == merge && r.s.blocks[merge].body == [i];
    assert g[merge].body[0] == i;
    e := d.(pc := 1, registers := d.registers[s2.registers := Bool(x)]);
    assert Step(g, d) == Running(e);
    ReachesStep(g, d, e);
    ReachesThrough(g, c, 0, d, 1, e);
    ReachesFewer(g, c, 1, 0, e);
  }

  lemma LogicStores(g: Graph, s: State, s2: State, c: Config, b: Operand, y: bool) returns (d: Config)
    requires Open(s2) && AtEnd(s2, c) && Backed(g, c) && Completes(g, CloseLogic(s, s2, b).s)
    requires Operate(b, c.registers) == Some(Bool(y)) && Cells(s) in c.cells
    requires s2.at != |s.blocks| + 1 < |s2.blocks| && s2.blocks[|s.blocks| + 1] == Block([], None)
    ensures Reaches(g, c, 0, d) && Backed(g, d) && d.block == |s.blocks| + 1 && d.pc == 0
    ensures d.registers == c.registers && d.cells == c.cells[Cells(s) := Some(Bool(y))]
  {
    var i := Store(Cells(s), b);
    var merge := |s.blocks| + 1;
    var stored := Put(s2, i);
    var joined := End(stored, Br(merge));
    assert Completes(g, joined) by {
      var r := CloseLogic(s, s2, b);
      assert r.s.blocks == joined.blocks[merge := Appended(joined.blocks[merge], Load(s2.registers, Place(Cells(s), [])))];
    }
    assert Completes(g, stored);
    var c1 := StoreGoes(g, s2, c, i, Cells(s), Bool(y));
    d := EndGoes(g, stored, c1, Br(merge), merge);
    ReachesThrough(g, c, 0, c1, 1, d);
    ReachesFewer(g, c, 1, 0, d);
  }

  /** The right operand decided the result. */
  lemma LogicRuns(g: Graph, s: State, c: Config, a: Operand, isAnd: bool, x: bool, d1: Config, s2: State, d2: Config,
                  b: Operand, y: bool)
    returns (e: Config)
    requires Ready(g, s, c) && Plain(OpenLogic(s, a, isAnd), s2) && Completes(g, CloseLogic(s, s2, b).s)
    requires Goes(g, s, c, OpenLogic(s, a, isAnd), d1) && Cells(s) in d1.cells
    requires Goes(g, OpenLogic(s, a, isAnd), d1, s2, d2) && Holds(b, s2, d2, Bool(y))
    ensures var r := CloseLogic(s, s2, b); Goes(g, s, c, r.s, e) && Holds(r.a, r.s, e, Bool(y))
  {
    hide OpenLogic, CloseLogic, Touches, Completes;
    LogicStates(g, s, a, isAnd, s2, b);
    GoesThrough(g, s, c, OpenLogic(s, a, isAnd), d1, s2, d2);
    var d3 := LogicStores(g, s, s2, d2, b, y);
    ReachesThrough(g, c, 0, d2, 0, d3);
    e := LogicReloads(g, s, c, s2, b, y, d3);
  }

  /** The left operand decided the result and the right one is not run. */
  lemma LogicSkips(g: Graph, s: State, c: Config, a: Operand, isAnd: bool, x: bool, s2: State, b: Operand)
    returns (e: Config)
    requires Ready(g, s, c) && Plain(OpenLogic(s, a, isAnd), s2) && Completes(g, CloseLogic(s, s2, b).s)
    requires Holds(a, s, c, Bool(x)) && x != isAnd
    ensures var r := CloseLogic(s, s2, b); Goes(g, s, c, r.s, e) && Holds(r.a, r.s, e, Bool(x))
  {
    hide OpenLogic, CloseLogic, Touches, Completes;
    LogicStates(g, s, a, isAnd, s2, b);
    var d := LogicEnters(g, s, c, a, isAnd, x);
    e := LogicReloads(g, s, c, s2, b, x, d);
  }

  // ----- the local table -----

  /** Names live in distinct cells that have been allocated. */
  predicate LocalsOk(s: State) {
    && (forall i :: 0 <= i < |s.locals| ==> s.locals[i].cell < Cells(s))
    && (forall i, j :: 0 <= i < j < |s.locals| ==> s.locals[i].cell != s.locals[j].cell)
  }

  /** The source stack and the local table name the same slots, and initialised slots equal their cells. */
  ghost predicate Matched(env: Env, locals: seq<Local>, c: Config) {
    && |env| == |locals|
    && forall i :: 0 <= i < |env| ==>
         && env[i].name == locals[i].name
         && (env[i].value.Some? ==> locals[i].cell in c.cells && c.cells[locals[i].cell] == env[i].value)
  }

  lemma MatchedLater(env: Env, s: State, c: Config, d: Config)
    requires LocalsOk(s) && Matched(env, s.locals, c) && Kept(s, c, d)
    ensures Matched(env, s.locals, d)
  {
  }

  lemma LocalsOkLater(s: State, t: State)
    requires LocalsOk(s) && Plain(s, t)
    ensures LocalsOk(t)
  {
  }

  lemma MatchedAfter(env: Env, g: Graph, s: State, c: Config, t: State, d: Config)
    requires LocalsOk(s) && Matched(env, s.locals, c) && Goes(g, s, c, t, d) && t.locals == s.locals
    ensures LocalsOk(t) && Matched(env, t.locals, d)
  {
  }

  /** Both sides find the same entry for a name. */
  lemma NamesAgree(env: Env, locals: seq<Local>, c: Config)
    requires Matched(env, locals, c)
    ensures Names(env) == LocalNames(locals)
  {
  }

  lemma ReadGoes(g: Graph, s: State, c: Config, x: string, path: seq<nat>, env: Env) returns (d: Config)
    requires LocalsOk(s) && Matched(env, s.locals, c) && Ready(g, s, c)
    requires EmitRead(s, x, path).Emitted? && Completes(g, EmitRead(s, x, path).s)
    ensures Simulates(g, s, c, EmitRead(s, x, path), d, ReadSlot(env, x, path))
  {
    NamesAgree(env, s.locals, c);
    var i := Newest(LocalNames(s.locals), x).value;
    if ReadSlot(env, x, path).Yields? {
      d := DefineGoes(g, s, c, Load(s.registers, Place(s.locals[i].cell, path)), ReadSlot(env, x, path).value);
    } else {
      d := c;
    }
  }

  // ----- expressions -----

  lemma SimulatesAfter(g: Graph, s: State, c: Config, t: State, d: Config, r: Emission, e: Config, x: Evaluated)
    requires r.Emitted? && Goes(g, s, c, t, d) && Simulates(g, t, d, r, e, x)
    ensures Simulates(g, s, c, r, e, x)
  {
    match x
    case Yields(_) => GoesThrough(g, s, c, t, d, r.s, e);
    case Aborts => StopsThrough(g, c, 0, d, TrapStop);
    case NotBoolean =>
    case Wrong =>
  }

  lemma ReadyThere(g: Graph, s: State, c: Config, t: State, d: Config)
    requires Goes(g, s, c, t, d) && Open(t) && Completes(g, t)
    ensures Ready(g, t, d)
  {
  }

  lemma ConversionGoes(g: Graph, s: State, c: Config, from: IntType, to: IntType, a: Operand, v: Value)
    returns (d: Config)
    requires Ready(g, s, c) && Holds(a, s, c, v) && IsInteger(v, from)
    requires EmitConversion(s, from, to, a).Emitted? && Completes(g, EmitConversion(s, from, to, a).s)
    ensures Simulates(g, s, c, EmitConversion(s, from, to, a), d, Yields(FromInteger(ToInteger(v, from), to)))
  {
    hide Goes, Completes, Lowering.Define, Open, Backed, AtEnd, Meaning, Encode, Pow2, CastResult;
    ConversionExact(from, to, v.bits);
    GoesNowhere(g, s, c);
    match ConversionCast(from, to)
    case None => d := c;
    case Some(op) =>
      d := CastNext(g, s, c, s, c, op, from.bits, to.bits, a, v, FromInteger(ToInteger(v, from), to));
  }

  lemma BoolValues(x: bool, y: bool)
    ensures ApplyBinary(IXor, Some(Bool(x)), Some(Bool(true))) == Some(Bool(!x))
    ensures ApplyCompare(EQ, Some(Bool(x)), Some(Bool(y))) == Some(Bool(x == y))
    ensures ApplyCompare(NE, Some(Bool(x)), Some(Bool(y))) == Some(Bool(x != y))
  {
    assert Pow2(1) == 2;
    assert Bitwise(BitXor, 0, 0, 0) == 0;
  }

  lemma BitNotValues(t: IntType, v: Value)
    requires IsInteger(v, t)
    ensures var ones := Bits(t.bits, Pow2(t.bits) - 1);
            var x := if t.signed then -ToInteger(v, t) - 1 else Max(t) - ToInteger(v, t);
            ApplyBinary(IXor, Some(v), Some(ones)) == Some(FromInteger(x, t))
  {
    hide Pow2, Meaning, Encode, Bitwise;
    BitNotExact(t, v.bits);
    EncodeOfMeaning(Pow2(t.bits) - 1 - v.bits, t);
  }

  lemma CompareValues(cmp: CompareOp, t: IntType, v: Value, w: Value)
    requires IsInteger(v, t) && IsInteger(w, t)
    ensures ApplyCompare(ComparePredicate(cmp, t), Some(v), Some(w)) ==
            Some(Bool(SourceCompare(cmp, ToInteger(v, t), ToInteger(w, t))))
  {
    hide Pow2, Meaning, SourceCompare, CompareResult, ComparePredicate;
    CompareExact(cmp, t, v.bits, w.bits);
  }

  /** Operands of one expression, left to right. */
  ghost predicate PairSimulates(
    g: Graph, s: State, c: Config, l: Emission, r: Emission, d: Config, v: Evaluated, w: Evaluated)
    requires l.Emitted? && r.Emitted?
  {
    match v
    case Aborts => Stops(g, c, TrapStop)
    case NotBoolean => true
    case Wrong => true
    case Yields(x) =>
      match w
      case Aborts => Stops(g, c, TrapStop)
      case NotBoolean => true
      case Wrong => true
      case Yields(y) => Goes(g, s, c, r.s, d) && Holds(l.a, r.s, d, x) && Holds(r.a, r.s, d, y)
  }

  lemma {:induction false} PairGoes(
    g: Graph, s: State, c: Config, left: Expr, right: Expr, env: Env, e: Expr) returns (d: Config)
    requires left < e && right < e
    requires LocalsOk(s) && Matched(env, s.locals, c) && Ready(g, s, c)
    requires EmitExpr(s, left).Emitted? && EmitExpr(EmitExpr(s, left).s, right).Emitted?
    requires Completes(g, EmitExpr(EmitExpr(s, left).s, right).s)
    ensures var l := EmitExpr(s, left);
            var r := EmitExpr(l.s, right);
            && PairSimulates(g, s, c, l, r, d, Eval(left, env), Eval(right, env))
            && Open(r.s) && Plain(s, r.s)
    decreases e, 0
  {
    hide EmitExpr, Eval, Goes, Completes, Open, Stops, Backed, AtEnd, Plain, LocalsOk, Matched, Holds;
    var l := EmitExpr(s, left);
    var r := EmitExpr(l.s, right);
    EmitExprFrame(s, left);
    EmitExprFrame(l.s, right);
    ThroughPlain(s, l.s, r.s);
    PlainEarlier(g, l.s, r.s);
    d := ExprGoes(g, s, c, left, env);
    if Eval(left, env).Yields? {
      ReadyThere(g, s, c, l.s, d);
      LocalsOkLater(s, l.s);
      PlainLocals(s, l.s);
      MatchedAfter(env, g, s, c, l.s, d);
      var d2 := ExprGoes(g, l.s, d, right, env);
      SimulatesAfter(g, s, c, l.s, d, r, d2, Eval(right, env));
      if Eval(right, env).Yields? {
        HoldsThrough(l.a, Eval(left, env).value, g, l.s, d, r.s, d2);
      }
      d := d2;
    }
  }

  lemma PlainLocals(s: State, t: State)
    requires Plain(s, t)
    ensures t.locals == s.locals
  {
  }

  /** A short-circuit operator, given its already simulated left operand. */
  lemma {:induction false} LogicGoes(
    g: Graph, s: State, c: Config, a: Operand, isAnd: bool, right: Expr, env: Env, x: bool) returns (d: Config)
    requires LocalsOk(s) && Matched(env, s.locals, c) && Ready(g, s, c) && Holds(a, s, c, Bool(x))
    requires EmitExpr(OpenLogic(s, a, isAnd), right).Emitted?
    requires var r := EmitExpr(OpenLogic(s, a, isAnd), right); Completes(g, CloseLogic(s, r.s, r.a).s)
    ensures var r := EmitExpr(OpenLogic(s, a, isAnd), right);
            Simulates(g, s, c, CloseLogic(s, r.s, r.a), d,
                      if x == isAnd then AsBool(Eval(right, env)) else Yields(Bool(x)))
    decreases right, 3
  {
    hide EmitExpr, Eval, Completes, Touches, Stops, OpenLogic, CloseLogic, LocalsOk, Matched, Backed, AtEnd, Plain, Open;
    hide Goes, Holds;
    var u := OpenLogic(s, a, isAnd);
    var r := EmitExpr(u, right);
    OpenLogicFrame(s, a, isAnd);
    EmitExprFrame(u, right);
    LogicStates(g, s, a, isAnd, r.s, r.a);
    if x != isAnd {
      d := LogicSkips(g, s, c, a, isAnd, x, r.s, r.a);
    } else {
      var d1 := LogicEnters(g, s, c, a, isAnd, x);
      ReadyThere(g, s, c, u, d1);
      MatchedAfter(env, g, s, c, u, d1);
      var d2 := ExprGoes(g, u, d1, right, env);
      var y := AsBool(Eval(right, env));
      if y.Yields? {
        d := LogicRuns(g, s, c, a, isAnd, x, d1, r.s, d2, r.a, y.value == Bool(true));
      } else {
        SimulatesAfter(g, s, c, u, d1, r, d2, Eval(right, env));
        d := d2;
      }
    }
  }

  /**
   Running emitted code: where evaluation yields a value, control arrives at the new insertion point with that
   value in the result operand and everything older unchanged; where evaluation aborts, the machine traps.
   */
  lemma {:induction false} ExprGoes(g: Graph, s: State, c: Config, e: Expr, env: Env) returns (d: Config)
    requires LocalsOk(s) && Matched(env, s.locals, c) && Ready(g, s, c)
    requires EmitExpr(s, e).Emitted? && Completes(g, EmitExpr(s, e).s)
    ensures Simulates(g, s, c, EmitExpr(s, e), d, Eval(e, env))
    decreases e, 2
  {
    hide Goes, Completes, Open, Stops, Backed, AtEnd, Plain, LocalsOk, Matched, Holds, Lowering.Define, EmitArith, EmitRead;
    hide EmitConversion, EvalArith, ApplyBinary, ApplyCompare, ReadSlot, Ready, OpenLogic, CloseLogic, ToInteger, FromInteger;
    hide SourceCompare, Pow2;
    match e
    case IntLiteral(_, _) => d := LiteralGoes(g, s, c, e, env);
    case BoolLiteral(_) => d := LiteralGoes(g, s, c, e, env);
    case Read(x, path) => d := ReadGoes(g, s, c, x, path, env);
    case Convert(from, to, operand) => d := UnaryGoes(g, s, c, operand, env, e);
    case Not(operand) => d := UnaryGoes(g, s, c, operand, env, e);
    case Negate(t, operand) => d := UnaryGoes(g, s, c, operand, env, e);
    case BitNot(t, operand) => d := UnaryGoes(g, s, c, operand, env, e);
    case Arith(op, t, left, right) => d := OperatorGoes(g, s, c, left, right, env, e);
    case Compare(cmp, t, left, right) => d := OperatorGoes(g, s, c, left, right, env, e);
    case SameBool(negated, left, right) => d := OperatorGoes(g, s, c, left, right, env, e);
    case And(left, right) => d := ShortCircuitGoes(g, s, c, left, right, env, e);
    case Or(left, right) => d := ShortCircuitGoes(g, s, c, left, right, env, e);
  }

  lemma LiteralGoes(g: Graph, s: State, c: Config, e: Expr, env: Env) returns (d: Config)
    requires e.IntLiteral? || e.BoolLiteral?
    requires Ready(g, s, c)
    ensures Simulates(g, s, c, EmitExpr(s, e), d, Eval(e, env))
  {
    GoesNowhere(g, s, c);
    d := c;
  }

  /** What is emitted after the operand of a unary expression `e`. */
  function AfterOperand(s: State, a: Operand, e: Expr): Emission
    requires e.Convert? || e.Not? || e.Negate? || e.BitNot?
  {
    match e
    case Convert(from, to, _) => EmitConversion(s, from, to, a)
    case Negate(t, _) => EmitArith(s, Subtract, t, Constant(Bits(t.bits, 0)), a)
    case BitNot(t, _) =>
      Emitted(Lowering.Define(s, Binary(s.registers, IXor, a, Constant(Bits(t.bits, Pow2(t.bits) - 1)))),
              Register(s.registers))
    case _ =>
      Emitted(Lowering.Define(s, Binary(s.registers, IXor, a, Constant(Bool(true)))), Register(s.registers))
  }

  lemma AfterOperandFrame(s: State, a: Operand, e: Expr)
    requires Open(s) && (e.Convert? || e.Not? || e.Negate? || e.BitNot?)
    ensures AfterOperand(s, a, e).Emitted? && Plain(s, AfterOperand(s, a, e).s)
  {
    hide Plain, Lowering.Define, EmitArith, Open;
    match e
    case Convert(from, to, _) =>
      PlainHere(s);
      if ConversionCast(from, to).Some? {
        DefineFrame(s, Cast(s.registers, ConversionCast(from, to).value, from.bits, to.bits, a));
      }
    case Negate(t, _) => EmitArithFrame(s, Subtract, t, Constant(Bits(t.bits, 0)), a);
    case BitNot(t, _) => DefineFrame(s, Binary(s.registers, IXor, a, Constant(Bits(t.bits, Pow2(t.bits) - 1))));
    case _ => DefineFrame(s, Binary(s.registers, IXor, a, Constant(Bool(true))));
  }

  lemma {:induction false} UnaryGoes(g: Graph, s: State, c: Config, operand: Expr, env: Env, e: Expr)
    returns (d: Config)
    requires (e.Convert? || e.Not? || e.Negate? || e.BitNot?) && operand == e.operand
    requires LocalsOk(s) && Matched(env, s.locals, c) && Ready(g, s, c)
    requires EmitExpr(s, e).Emitted? && Completes(g, EmitExpr(s, e).s)
    ensures Simulates(g, s, c, EmitExpr(s, e), d, Eval(e, env))
    decreases e, 0
  {
    hide Goes, Completes, Open, Stops, Backed, AtEnd, Plain, LocalsOk, Matched, Holds, Lowering.Define, EmitArith;
    hide EmitConversion, EvalArith, ToInteger, FromInteger, AfterOperand;
    var r := EmitExpr(s, operand);
    EmitExprFrame(s, operand);
    AfterOperandFrame(r.s, r.a, e);
    assert AfterOperand(r.s, r.a, e) == EmitExpr(s, e) by { AfterOperandIs(s, e); }
    PlainEarlier(g, r.s, EmitExpr(s, e).s);
    d := ExprGoes(g, s, c, operand, env);
    if Eval(operand, env).Yields? {
      ReadyThere(g, s, c, r.s, d);
      var v := Eval(operand, env).value;
      var d2 := AfterOperandGoes(g, r.s, d, r.a, v, e, env);
      SimulatesAfter(g, s, c, r.s, d, EmitExpr(s, e), d2, Eval(e, env));
      d := d2;
    }
  }

  lemma AfterOperandIs(s: State, e: Expr)
    requires (e.Convert? || e.Not? || e.Negate? || e.BitNot?) && EmitExpr(s, e.operand).Emitted?
    ensures EmitExpr(s, e) == AfterOperand(EmitExpr(s, e.operand).s, EmitExpr(s, e.operand).a, e)
  {
    hide EmitArith, EmitConversion, Lowering.Define;
  }

  lemma AfterOperandGoes(g: Graph, s: State, c: Config, a: Operand, v: Value, e: Expr, env: Env)
    returns (d: Config)
    requires e.Convert? || e.Not? || e.Negate? || e.BitNot?
    requires Ready(g, s, c) && Holds(a, s, c, v) && Eval(e.operand, env) == Yields(v)
    requires AfterOperand(s, a, e).Emitted? && Completes(g, AfterOperand(s, a, e).s)
    ensures Simulates(g, s, c, AfterOperand(s, a, e), d, Eval(e, env))
  {
    hide Goes, Completes, Open, Stops, Backed, AtEnd, Lowering.Define, EmitArith, EmitConversion, EvalArith;
    hide ApplyBinary, ToInteger, FromInteger, Pow2;
    GoesNowhere(g, s, c);
    d := c;
    match e
    case Convert(from, to, _) =>
      if IsInteger(v, from) {
        d := ConversionGoes(g, s, c, from, to, a, v);
      }
    case Negate(t, _) =>
      ZeroEncodes(t);
      d := ArithGoes(g, s, c, Subtract, t, Constant(Bits(t.bits, 0)), a, FromInteger(0, t), v);
    case BitNot(t, _) =>
      if IsInteger(v, t) {
        BitNotValues(t, v);
        d := BinaryNext(g, s, c, s, c, IXor, a, Constant(Bits(t.bits, Pow2(t.bits) - 1)), v,
                        Bits(t.bits, Pow2(t.bits) - 1), Eval(e, env).value);
      }
    case _ =>
      if IsBool(v) {
        BoolValues(v == Bool(true), true);
        d := BinaryNext(g, s, c, s, c, IXor, a, Constant(Bool(true)), v, Bool(true), Bool(v == Bool(false)));
      }
  }

  lemma ZeroEncodes(t: IntType)
    ensures FromInteger(0, t) == Bits(t.bits, 0)
  {
  }

  /** What is emitted after the operands of a binary expression `e`. */
  function AfterOperands(s: State, a: Operand, b: Operand, e: Expr): Emission
    requires e.Arith? || e.Compare? || e.SameBool?
  {
    match e
    case Arith(op, t, _, _) => EmitArith(s, op, t, a, b)
    case Compare(cmp, t, _, _) =>
      Emitted(Lowering.Define(s, ICmp(s.registers, ComparePredicate(cmp, t), a, b)), Register(s.registers))
    case SameBool(negated, _, _) =>
      Emitted(Lowering.Define(s, ICmp(s.registers, if negated then NE else EQ, a, b)), Register(s.registers))
  }

  lemma AfterOperandsFrame(s: State, a: Operand, b: Operand, e: Expr)
    requires Open(s) && (e.Arith? || e.Compare? || e.SameBool?)
    ensures AfterOperands(s, a, b, e).Emitted? && Plain(s, AfterOperands(s, a, b, e).s)
  {
    hide Plain, Lowering.Define, EmitArith, Open;
    match e
    case Arith(op, t, _, _) => EmitArithFrame(s, op, t, a, b);
    case Compare(cmp, t, _, _) => DefineFrame(s, ICmp(s.registers, ComparePredicate(cmp, t), a, b));
    case SameBool(negated, _, _) => DefineFrame(s, ICmp(s.registers, if negated then NE else EQ, a, b));
  }

  lemma AfterOperandsGoes(
    g: Graph, s: State, c: Config, a: Operand, b: Operand, v: Value, w: Value, e: Expr, env: Env) returns (d: Config)
    requires e.Arith? || e.Compare? || e.SameBool?
    requires Ready(g, s, c) && Holds(a, s, c, v) && Holds(b, s, c, w)
    requires Eval(e.left, env) == Yields(v) && Eval(e.right, env) == Yields(w)
    requires AfterOperands(s, a, b, e).Emitted? && Completes(g, AfterOperands(s, a, b, e).s)
    ensures Simulates(g, s, c, AfterOperands(s, a, b, e), d, Eval(e, env))
  {
    hide Goes, Completes, Open, Stops, Backed, AtEnd, Lowering.Define, EmitArith, EvalArith, ApplyCompare, ToInteger;
    hide SourceCompare, Pow2, ComparePredicate;
    GoesNowhere(g, s, c);
    d := c;
    match e
    case Arith(op, t, _, _) => d := ArithGoes(g, s, c, op, t, a, b, v, w);
    case Compare(cmp, t, _, _) =>
      if IsInteger(v, t) && IsInteger(w, t) {
        CompareValues(cmp, t, v, w);
        d := CompareNext(g, s, c, s, c, ComparePredicate(cmp, t), a, b, v, w, Eval(e, env).value);
      }
    case SameBool(negated, _, _) =>
      if IsBool(v) && IsBool(w) {
        BoolValues(v == Bool(true), w == Bool(true));
        d := CompareNext(g, s, c, s, c, if negated then NE else EQ, a, b, v, w, Eval(e, env).value);
      }
  }

  lemma AfterOperandsIs(s: State, e: Expr)
    requires e.Arith? || e.Compare? || e.SameBool?
    requires EmitExpr(s, e.left).Emitted? && EmitExpr(EmitExpr(s, e.left).s, e.right).Emitted?
    ensures var l := EmitExpr(s, e.left);
            var r := EmitExpr(l.s, e.right);
            EmitExpr(s, e) == AfterOperands(r.s, l.a, r.a, e)
  {
    hide EmitArith, Lowering.Define;
  }

  lemma {:induction false} OperatorGoes(
    g: Graph, s: State, c: Config, left: Expr, right: Expr, env: Env, e: Expr) returns (d: Config)
    requires (e.Arith? || e.Compare? || e.SameBool?) && left == e.left && right == e.right
    requires LocalsOk(s) && Matched(env, s.locals, c) && Ready(g, s, c)
    requires EmitExpr(s, e).Emitted? && Completes(g, EmitExpr(s, e).s)
    ensures Simulates(g, s, c, EmitExpr(s, e), d, Eval(e, env))
    decreases e, 1
  {
    hide Goes, Completes, Open, Stops, Backed, AtEnd, Plain, LocalsOk, Matched, Holds, Lowering.Define, EmitArith;
    hide EvalArith, ToInteger, AfterOperands, SourceCompare;
    var l := EmitExpr(s, left);
    var r := EmitExpr(l.s, right);
    EmitPairFrame(s, left, right, e);
    EmitExprFrame(s, left);
    EmitExprFrame(l.s, right);
    AfterOperandsFrame(r.s, l.a, r.a, e);
    AfterOperandsIs(s, e);
    PlainEarlier(g, r.s, EmitExpr(s, e).s);
    d := PairGoes(g, s, c, left, right, env, e);
    if Eval(left, env).Yields? && Eval(right, env).Yields? {
      ReadyThere(g, s, c, r.s, d);
      var d2 := AfterOperandsGoes(g, r.s, d, l.a, r.a, Eval(left, env).value, Eval(right, env).value, e, env);
      SimulatesAfter(g, s, c, r.s, d, EmitExpr(s, e), d2, Eval(e, env));
      d := d2;
    }
  }

  lemma {:induction false} ShortCircuitGoes(
    g: Graph, s: State, c: Config, left: Expr, right: Expr, env: Env, e: Expr) returns (d: Config)
    requires (e.And? || e.Or?) && left == e.left && right == e.right
    requires LocalsOk(s) && Matched(env, s.locals, c) && Ready(g, s, c)
    requires EmitExpr(s, e).Emitted? && Completes(g, EmitExpr(s, e).s)
    ensures Simulates(g, s, c, EmitExpr(s, e), d, Eval(e, env))
    decreases e, 0
  {
    hide Goes, Completes, Open, Stops, Backed, AtEnd, Plain, LocalsOk, Matched, Holds, OpenLogic, CloseLogic, Touches;
    var isAnd := e.And?;
    var l := EmitExpr(s, left);
    var u := OpenLogic(l.s, l.a, isAnd);
    var r := EmitExpr(u, right);
    EmitExprFrame(s, left);
    OpenLogicFrame(l.s, l.a, isAnd);
    EmitExprFrame(u, right);
    LogicStates(g, l.s, l.a, isAnd, r.s, r.a);
    d := ExprGoes(g, s, c, left, env);
    if Eval(left, env).Yields? && IsBool(Eval(left, env).value) {
      ReadyThere(g, s, c, l.s, d);
      LocalsOkLater(s, l.s);
      PlainLocals(s, l.s);
      MatchedAfter(env, g, s, c, l.s, d);
      var d2 := LogicGoes(g, l.s, d, l.a, isAnd, right, env, Eval(left, env).value == Bool(true));
      SimulatesAfter(g, s, c, l.s, d, EmitExpr(s, e), d2, Eval(e, env));
      d := d2;
    }
  }
}
