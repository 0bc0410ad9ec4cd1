/**
 When the compiler's own emission, which leaves the names of `if`, `while` and `unsafe` bodies in the local
 table, emits the same code as emission that forgets them: exactly when no emitted read or assignment uses a
 name while a leftover of it is newest.
 */
module Hygiene {
  import opened Integers
  import opened MachineIntegers
  import opened Options
  import opened Syntax
  import opened Patterns
  import opened Machine
  import opened Lowering
  import opened LoweringFrame
  import opened StatementFrame
  import opened ExprSimulation
  import opened StatementSimulation
  import opened Termination

  // ----- the check -----

  function Reads(e: Expr): set<string> {
    match e
    case IntLiteral(_, _) => {}
    case BoolLiteral(_) => {}
    case Read(x, _) => {x}
    case Convert(_, _, operand) => Reads(operand)
    case Not(operand) => Reads(operand)
    case Negate(_, operand) => Reads(operand)
    case BitNot(_, operand) => Reads(operand)
    case Arith(_, _, left, right) => Reads(left) + Reads(right)
    case Compare(_, _, left, right) => Reads(left) + Reads(right)
    case SameBool(_, left, right) => Reads(left) + Reads(right)
    case And(left, right) => Reads(left) + Reads(right)
    case Or(left, right) => Reads(left) + Reads(right)
  }

  function PatternNames(p: Pattern): set<string>
    decreases p
  {
    match p
    case Wildcard => {}
    case Binding(x) => {x}
    case StructPattern(fields) => FieldNames(fields, 0)
    case EnumPattern(_, payloads) => PayloadNames(payloads, 0)
  }

  function FieldNames(fields: seq<FieldPattern>, i: nat): set<string>
    decreases fields, |fields| - i
  {
    if i >= |fields| then {} else FieldName(fields[i]) + FieldNames(fields, i + 1)
  }

  function FieldName(f: FieldPattern): set<string>
    decreases f
  {
    PatternNames(f.pattern)
  }

  function PayloadNames(payloads: seq<Pattern>, i: nat): set<string>
    decreases payloads, |payloads| - i
  {
    if i >= |payloads| then {} else PatternNames(payloads[i]) + PayloadNames(payloads, i + 1)
  }

  /** The names declared directly in a block, up to the statement that ends its path. */
  function DeclaredFrom(block: seq<Stmt>, i: nat): set<string>
    decreases |block| - i
  {
    if i >= |block| then {}
    else (if block[i].Declare? then {block[i].name} else {})
         + if Ends(block[i]) then {} else DeclaredFrom(block, i + 1)
  }

  /** The names that are stale after a statement, given those before it; `None` if a stale name is used. */
  function AfterStatement(stmt: Stmt, stale: set<string>): Option<set<string>>
    decreases stmt
  {
    match stmt
    case Declare(x, _, _) => Some(stale - {x})
    case Assign(x, e) => if x in stale || !(Reads(e) !! stale) then None else Some(stale)
    case Return(None) => Some(stale)
    case Return(Some(e)) => if Reads(e) !! stale then Some(stale) else None
    case If(c, thenBlock, elseBlock) =>
      if !(Reads(c) !! stale) then None else
      (match AfterBlock(thenBlock, stale)
       case None => None
       case Some(next) => AfterBlock(elseBlock, next))
    case Unsafe(body) => AfterBlock(body, stale)
    case While(c, body) => if Reads(c) !! stale then AfterBlock(body, stale) else None
    case Match(_, scrutinee, cases) =>
      if Reads(scrutinee) !! stale && forall i :: 0 <= i < |cases| ==> CaseClean(cases[i], stale) then Some(stale) else None
  }

  /** A block leaves its own names behind as stale ones. */
  function AfterBlock(block: seq<Stmt>, stale: set<string>): Option<set<string>>
    decreases block, |block| + 1
  {
    match AfterFrom(block, 0, stale)
    case None => None
    case Some(next) => Some(next + DeclaredFrom(block, 0))
  }

  function AfterFrom(block: seq<Stmt>, i: nat, stale: set<string>): Option<set<string>>
    decreases block, |block| - i
  {
    if i >= |block| then Some(stale)
    else
      match AfterStatement(block[i], stale)
      case None => None
      case Some(next) => if Ends(block[i]) then Some(next) else AfterFrom(block, i + 1, next)
  }

  /** A match arm restores the table when it ends, so it leaves nothing behind. */
  predicate CaseClean(c: Case, stale: set<string>)
    decreases c
  {
    AfterFrom(c.body, 0, stale - PatternNames(c.pattern)).Some?
  }

  /** No stale name is used anywhere in a body. */
  predicate StaleFree(body: seq<Stmt>) {
    AfterFrom(body, 0, {}).Some?
  }

  // ----- local tables -----

  /** The cell a name denotes. */
  function Lookup(locals: seq<Local>, x: string): Option<nat> {
    match Newest(LocalNames(locals), x)
    case None => None
    case Some(i) => Some(locals[i].cell)
  }

  lemma LookupIs(locals: seq<Local>, x: string, i: nat)
    requires i < |locals| && locals[i].name == x && forall j :: i < j < |locals| ==> locals[j].name != x
    ensures Lookup(locals, x) == Some(locals[i].cell)
  {
    var names := LocalNames(locals);
    assert names[i] == x;
  }

  lemma LookupNone(locals: seq<Local>, x: string)
    requires forall j :: 0 <= j < |locals| ==> locals[j].name != x
    ensures Lookup(locals, x) == None
  {
  }

  lemma LookupAdded(locals: seq<Local>, y: string, cell: nat, x: string)
    ensures Lookup(locals + [Local(y, cell)], x) == if x == y then Some(cell) else Lookup(locals, x)
  {
    var more := locals + [Local(y, cell)];
    if x == y {
      LookupIs(more, x, |locals|);
    } else {
      match Newest(LocalNames(locals), x)
      case Some(i) =>
        assert forall j :: i < j < |locals| ==> LocalNames(locals)[j] == locals[j].name;
        LookupIs(more, x, i);
      case None =>
        assert forall j :: 0 <= j < |locals| ==> LocalNames(locals)[j] == locals[j].name;
        LookupNone(more, x);
    }
  }

  /** The two tables agree on exactly the names that are not stale. */
  ghost predicate Agree(l: seq<Local>, l': seq<Local>, stale: set<string>) {
    forall x :: (Lookup(l, x) == Lookup(l', x) <==> x !in stale) && (Lookup(l', x).None? ==> Lookup(l, x).None?)
  }

  lemma AgreeAdded(l: seq<Local>, l': seq<Local>, stale: set<string>, y: string, cell: nat)
    requires Agree(l, l', stale)
    ensures Agree(l + [Local(y, cell)], l' + [Local(y, cell)], stale - {y})
  {
    var m, m' := l + [Local(y, cell)], l' + [Local(y, cell)];
    forall x
      ensures Lookup(m, x) == Lookup(m', x) <==> x !in stale - {y}
      ensures Lookup(m', x).None? ==> Lookup(m, x).None?
    {
      LookupAdded(l, y, cell, x);
      LookupAdded(l', y, cell, x);
    }
  }

  // ----- the two emissions -----

  /** States that differ only in their local tables. */
  predicate Same(s: State, s': State) {
    s'.blocks == s.blocks && s'.at == s.at && s'.registers == s.registers
  }

  /** Some emitted instruction differs. */
  ghost predicate Diverged(s: State, s': State) {
    exists b, k :: 0 <= b < |s.blocks| && b < |s'.blocks| && DiffersAt(s.blocks[b].body, s'.blocks[b].body, k)
  }

  predicate DiffersAt(a: seq<Instruction>, a': seq<Instruction>, k: nat) {
    k < |a| && k < |a'| && a[k] != a'[k]
  }

  /** Emission only ever adds to a state. */
  ghost predicate Grows(s: State, t: State) {
    |s.blocks| <= |t.blocks| && forall b :: 0 <= b < |s.blocks| ==> s.blocks[b].body <= t.blocks[b].body
  }

  lemma GrowsThrough(s: State, t: State, u: State)
    requires Grows(s, t) && Grows(t, u)
    ensures Grows(s, u)
  {
    forall b | 0 <= b < |s.blocks|
      ensures s.blocks[b].body <= u.blocks[b].body
    {
      assert s.blocks[b].body <= t.blocks[b].body <= u.blocks[b].body;
    }
  }

  lemma TouchesGrows(s: State, t: State, open: set<nat>)
    requires Touches(s, t, open)
    ensures Grows(s, t)
  {
  }

  lemma DivergedLater(s: State, s': State, t: State, t': State)
    requires Diverged(s, s') && Grows(s, t) && Grows(s', t')
    ensures Diverged(t, t')
  {
    var b, k :| 0 <= b < |s.blocks| && b < |s'.blocks| && DiffersAt(s.blocks[b].body, s'.blocks[b].body, k);
    assert s.blocks[b].body <= t.blocks[b].body && s'.blocks[b].body <= t'.blocks[b].body;
    assert DiffersAt(t.blocks[b].body, t'.blocks[b].body, k);
  }

  lemma DivergedPut(s: State, s': State, i: Instruction, i': Instruction)
    requires Same(s, s') && i != i'
    ensures Diverged(Put(s, i), Put(s', i'))
    ensures Diverged(Lowering.Define(s, i), Lowering.Define(s', i'))
  {
    var k := |s.blocks[s.at].body|;
    assert DiffersAt(Put(s, i).blocks[s.at].body, Put(s', i').blocks[s.at].body, k);
    assert DiffersAt(Lowering.Define(s, i).blocks[s.at].body, Lowering.Define(s', i').blocks[s.at].body, k);
  }

  // ----- expressions -----

  /** Emissions from the two tables: equal if `clean`, otherwise visibly different or failed. */
  ghost predicate ValuesRelate(r: Emission, r': Emission, clean: bool) {
    r'.Emitted? ==>
      if clean then r.Emitted? && r.a == r'.a && Same(r.s, r'.s)
      else r.Emitted? ==> Diverged(r.s, r'.s)
  }

  lemma DefineSame(s: State, s': State, i: Instruction)
    requires Same(s, s')
    ensures Same(Lowering.Define(s, i), Lowering.Define(s', i)) && Same(Put(s, i), Put(s', i))
  {
  }

  lemma TrapIfSame(s: State, s': State, a: Operand)
    requires Same(s, s')
    ensures Same(TrapIf(s, a), TrapIf(s', a))
  {
  }

  lemma DefineTrapSame(s: State, s': State, i: Instruction, a: Operand)
    requires Same(s, s')
    ensures Same(TrapIf(Lowering.Define(s, i), a), TrapIf(Lowering.Define(s', i), a))
  {
    hide Lowering.Define, TrapIf, Same;
    DefineSame(s, s', i);
    TrapIfSame(Lowering.Define(s, i), Lowering.Define(s', i), a);
  }

  lemma RegistersSame(s: State, s': State)
    requires Same(s, s')
    ensures s.registers == s'.registers && s.at == s'.at && |s.blocks| == |s'.blocks| && Cells(s) == Cells(s')
    ensures Open(s) == Open(s')
  {
  }

  lemma CheckedSame(s: State, s': State, op: ArithOp, t: IntType, a: Operand, b: Operand)
    requires Same(s, s')
    ensures var r, r' := EmitChecked(s, op, t, a, b), EmitChecked(s', op, t, a, b);
            r.Emitted? && r'.Emitted? && r.a == r'.a && Same(r.s, r'.s)
  {
    hide Lowering.Define, TrapIf, Same, WideBits, Extension, WideOp;
    RegistersSame(s, s');
    var r, wide := s.registers, WideBits(t.bits);
    var i1, i2 := Cast(r, Extension(t), t.bits, wide, a), Cast(r + 1, Extension(t), t.bits, wide, b);
    var i3 := Binary(r + 2, WideOp(op), Register(r), Register(r + 1));
    var i4, i5 := Cast(r + 3, Trunc, wide, t.bits, Register(r + 2)), Cast(r + 4, Extension(t), t.bits, wide, Register(r + 3));
    var i6 := ICmp(r + 5, NE, Register(r + 2), Register(r + 4));
    var s1, s1' := Lowering.Define(s, i1), Lowering.Define(s', i1);
    var s2, s2' := Lowering.Define(s1, i2), Lowering.Define(s1', i2);
    var s3, s3' := Lowering.Define(s2, i3), Lowering.Define(s2', i3);
    var s4, s4' := Lowering.Define(s3, i4), Lowering.Define(s3', i4);
    var s5, s5' := Lowering.Define(s4, i5), Lowering.Define(s4', i5);
    DefineSame(s, s', i1);
    DefineSame(s1, s1', i2);
    DefineSame(s2, s2', i3);
    DefineSame(s3, s3', i4);
    DefineSame(s4, s4', i5);
    DefineTrapSame(s5, s5', i6, Register(r + 5));
  }

  lemma OverflowTestedSame(s: State, s': State, t: IntType, a: Operand, b: Operand)
    requires Same(s, s')
    ensures Same(OverflowTested(s, t, a, b), OverflowTested(s', t, a, b))
  {
    hide Lowering.Define, TrapIf, Same, Pow2;
    RegistersSame(s, s');
    var r := s.registers;
    var i2 := ICmp(r, EQ, a, Constant(Bits(t.bits, Pow2(t.bits - 1))));
    var i3 := ICmp(r + 1, EQ, b, Constant(Bits(t.bits, Pow2(t.bits) - 1)));
    var s2, s2' := Lowering.Define(s, i2), Lowering.Define(s', i2);
    DefineSame(s, s', i2);
    DefineSame(s2, s2', i3);
    DefineTrapSame(Lowering.Define(s2, i3), Lowering.Define(s2', i3), Binary(r + 2, IAnd, Register(r), Register(r + 1)),
                   Register(r + 2));
  }

  /** The state in which the quotient itself is computed. */
  function Guarded(s: State, t: IntType, a: Operand, b: Operand): State {
    var s1 := TrapIf(Lowering.Define(s, ICmp(s.registers, EQ, b, Constant(Bits(t.bits, 0)))), Register(s.registers));
    if t.signed then OverflowTested(s1, t, a, b) else s1
  }

  lemma QuotientIs(s: State, op: ArithOp, t: IntType, a: Operand, b: Operand)
    ensures var u, r := Guarded(s, t, a, b), EmitQuotient(s, op, t, a, b);
            r == Emitted(Lowering.Define(u, Binary(u.registers, QuotientOp(op, t), a, b)), Register(u.registers))
  {
    hide Lowering.Define, TrapIf, Pow2, QuotientOp;
  }

  lemma QuotientSame(s: State, s': State, op: ArithOp, t: IntType, a: Operand, b: Operand)
    requires Same(s, s')
    ensures var r, r' := EmitQuotient(s, op, t, a, b), EmitQuotient(s', op, t, a, b);
            r.Emitted? && r'.Emitted? && r.a == r'.a && Same(r.s, r'.s)
  {
    hide Lowering.Define, TrapIf, Same, QuotientOp, OverflowTested, EmitQuotient;
    RegistersSame(s, s');
    QuotientIs(s, op, t, a, b);
    QuotientIs(s', op, t, a, b);
    var r, i := s.registers, ICmp(s.registers, EQ, b, Constant(Bits(t.bits, 0)));
    var s1, s1' := TrapIf(Lowering.Define(s, i), Register(r)), TrapIf(Lowering.Define(s', i), Register(r));
    DefineTrapSame(s, s', i, Register(r));
    if t.signed {
      OverflowTestedSame(s1, s1', t, a, b);
    }
    var u, u' := Guarded(s, t, a, b), Guarded(s', t, a, b);
    RegistersSame(u, u');
    DefineSame(u, u', Binary(u.registers, QuotientOp(op, t), a, b));
  }

  lemma ArithSame(s: State, s': State, op: ArithOp, t: IntType, a: Operand, b: Operand)
    requires Same(s, s')
    ensures var r, r' := EmitArith(s, op, t, a, b), EmitArith(s', op, t, a, b);
            r.Emitted? && r'.Emitted? && r.a == r'.a && Same(r.s, r'.s)
  {
    hide Lowering.Define, TrapIf, Same, EmitChecked, EmitQuotient;
    RegistersSame(s, s');
    CheckedSame(s, s', op, t, a, b);
    QuotientSame(s, s', op, t, a, b);
    var i := ICmp(s.registers, UGE, b, Constant(Bits(t.bits, t.bits)));
    DefineTrapSame(s, s', i, Register(s.registers));
    DefineSame(TrapIf(Lowering.Define(s, i), Register(s.registers)), TrapIf(Lowering.Define(s', i), Register(s.registers)),
               Binary(s.registers + 1, ShiftOp(op, t), a, b));
    DefineSame(s, s', Binary(s.registers, BitOp(op), a, b));
  }

  lemma ReadRelates(s: State, s': State, x: string, path: seq<nat>, stale: set<string>)
    requires Same(s, s') && Agree(s.locals, s'.locals, stale)
    ensures ValuesRelate(EmitRead(s, x, path), EmitRead(s', x, path), x !in stale)
  {
    hide Lowering.Define;
    assert Lookup(s.locals, x) == Lookup(s'.locals, x) <==> x !in stale;
    var r, r' := EmitRead(s, x, path), EmitRead(s', x, path);
    if r'.Emitted? && r.Emitted? {
      var p, p' := Place(Lookup(s.locals, x).value, path), Place(Lookup(s'.locals, x).value, path);
      if x in stale {
        DivergedPut(s, s', Load(s.registers, p), Load(s.registers, p'));
      } else {
        DefineSame(s, s', Load(s.registers, p));
      }
    }
  }

  lemma AfterOperandSame(s: State, s': State, a: Operand, e: Expr)
    requires Same(s, s') && (e.Convert? || e.Not? || e.Negate? || e.BitNot?)
    ensures var r, r' := AfterOperand(s, a, e), AfterOperand(s', a, e);
            r.Emitted? && r'.Emitted? && r.a == r'.a && Same(r.s, r'.s)
  {
    hide Lowering.Define, EmitArith, Same, Pow2;
    RegistersSame(s, s');
    match e
    case Convert(from, to, _) =>
      if ConversionCast(from, to).Some? {
        DefineSame(s, s', Cast(s.registers, ConversionCast(from, to).value, from.bits, to.bits, a));
      }
    case Negate(t, _) => ArithSame(s, s', Subtract, t, Constant(Bits(t.bits, 0)), a);
    case BitNot(t, _) => DefineSame(s, s', Binary(s.registers, IXor, a, Constant(Bits(t.bits, Pow2(t.bits) - 1))));
    case _ => DefineSame(s, s', Binary(s.registers, IXor, a, Constant(Bool(true))));
  }

  lemma AfterOperandsSame(s: State, s': State, a: Operand, b: Operand, e: Expr)
    requires Same(s, s') && (e.Arith? || e.Compare? || e.SameBool?)
    ensures var r, r' := AfterOperands(s, a, b, e), AfterOperands(s', a, b, e);
            r.Emitted? && r'.Emitted? && r.a == r'.a && Same(r.s, r'.s)
  {
    hide Lowering.Define, EmitArith, Same, ComparePredicate;
    RegistersSame(s, s');
    match e
    case Arith(op, t, _, _) => ArithSame(s, s', op, t, a, b);
    case Compare(cmp, t, _, _) => DefineSame(s, s', ICmp(s.registers, ComparePredicate(cmp, t), a, b));
    case SameBool(negated, _, _) => DefineSame(s, s', ICmp(s.registers, if negated then NE else EQ, a, b));
  }

  lemma OpenLogicSame(s: State, s': State, a: Operand, isAnd: bool)
    requires Same(s, s')
    ensures Same(OpenLogic(s, a, isAnd), OpenLogic(s', a, isAnd))
  {
  }

  lemma CloseLogicSame(left: State, left': State, s: State, s': State, b: Operand)
    requires Same(left, left') && Same(s, s')
    ensures var r, r' := CloseLogic(left, s, b), CloseLogic(left', s', b);
            r.Emitted? && r'.Emitted? && r.a == r'.a && Same(r.s, r'.s)
  {
  }

  // ----- what grows, for persistence of a difference -----

  lemma OpenLogicGrows(s: State, a: Operand, isAnd: bool)
    requires Open(s)
    ensures Grows(s, OpenLogic(s, a, isAnd))
  {
    OpenLogicFrame(s, a, isAnd);
    TouchesGrows(s, OpenLogic(s, a, isAnd), {|s.blocks|, |s.blocks| + 1});
  }

  lemma CloseLogicGrows(left: State, s: State, b: Operand)
    ensures CloseLogic(left, s, b).Emitted? && Grows(s, CloseLogic(left, s, b).s)
  {
  }

  lemma EmitExprGrows(s: State, e: Expr)
    requires Open(s)
    ensures EmitExpr(s, e).Emitted? ==> Grows(s, EmitExpr(s, e).s) && Open(EmitExpr(s, e).s)
    ensures EmitExpr(s, e).Emitted? ==> EmitExpr(s, e).s.locals == s.locals && Cells(s) <= Cells(EmitExpr(s, e).s)
  {
    hide EmitExpr, Grows, Cells;
    EmitExprFrame(s, e);
    if EmitExpr(s, e).Emitted? {
      TouchesGrows(s, EmitExpr(s, e).s, {EmitExpr(s, e).s.at});
      PlainCells(s, EmitExpr(s, e).s);
    }
  }

  /** A difference after the first of two expressions remains. */
  lemma DivergedThroughExpr(s: State, s': State, e: Expr)
    requires Diverged(s, s') && Open(s) && Open(s') && EmitExpr(s, e).Emitted? && EmitExpr(s', e).Emitted?
    ensures Diverged(EmitExpr(s, e).s, EmitExpr(s', e).s)
  {
    hide EmitExpr, Diverged, Grows;
    EmitExprGrows(s, e);
    EmitExprGrows(s', e);
    DivergedLater(s, s', EmitExpr(s, e).s, EmitExpr(s', e).s);
  }

  lemma DivergedThroughPlain(s: State, s': State, t: State, t': State)
    requires Diverged(s, s') && Plain(s, t) && Plain(s', t')
    ensures Diverged(t, t')
  {
    hide Diverged, Grows;
    TouchesGrows(s, t, {t.at});
    TouchesGrows(s', t', {t'.at});
    DivergedLater(s, s', t, t');
  }

  // ----- expressions, related -----

  /** Two operands in order: the second is emitted from related states. */
  lemma {:induction false} PairRelates(s: State, s': State, left: Expr, right: Expr, stale: set<string>, e: Expr)
    requires left < e && right < e && Same(s, s') && Agree(s.locals, s'.locals, stale) && Open(s)
    requires EmitExpr(s', left).Emitted? && EmitExpr(EmitExpr(s', left).s, right).Emitted?
    ensures var l, l' := EmitExpr(s, left), EmitExpr(s', left);
            var clean := Reads(left) + Reads(right) !! stale;
            && (clean ==> l.Emitted? && l.a == l'.a)
            && (l.Emitted? ==> ValuesRelate(EmitExpr(l.s, right), EmitExpr(l'.s, right), clean))
    decreases e, 0
  {
    hide EmitExpr, Diverged, Grows, Agree;
    var l, l' := EmitExpr(s, left), EmitExpr(s', left);
    ExprRelates(s, s', left, stale);
    RegistersSame(s, s');
    EmitExprGrows(s, left);
    EmitExprGrows(s', left);
    if Reads(left) !! stale {
      ExprRelates(l.s, l'.s, right, stale);
    } else if l.Emitted? && EmitExpr(l.s, right).Emitted? {
      DivergedThroughExpr(l.s, l'.s, right);
    }
  }

  lemma {:induction false} ExprRelates(s: State, s': State, e: Expr, stale: set<string>)
    requires Same(s, s') && Agree(s.locals, s'.locals, stale) && Open(s)
    ensures ValuesRelate(EmitExpr(s, e), EmitExpr(s', e), Reads(e) !! stale)
    decreases e, 1
  {
    hide Diverged, Grows, Agree, EmitArith, EmitConversion, OpenLogic, CloseLogic, Lowering.Define, EmitRead;
    match e
    case IntLiteral(_, _) =>
    case BoolLiteral(_) =>
    case Read(x, path) => ReadRelates(s, s', x, path, stale);
    case Convert(_, _, operand) => UnaryRelates(s, s', e, stale);
    case Not(operand) => UnaryRelates(s, s', e, stale);
    case Negate(_, operand) => UnaryRelates(s, s', e, stale);
    case BitNot(_, operand) => UnaryRelates(s, s', e, stale);
    case Arith(_, _, left, right) => OperatorRelates(s, s', e, stale);
    case Compare(_, _, left, right) => OperatorRelates(s, s', e, stale);
    case SameBool(_, left, right) => OperatorRelates(s, s', e, stale);
    case And(left, right) => LogicRelates(s, s', e, stale);
    case Or(left, right) => LogicRelates(s, s', e, stale);
  }

  lemma {:induction false} UnaryRelates(s: State, s': State, e: Expr, stale: set<string>)
    requires e.Convert? || e.Not? || e.Negate? || e.BitNot?
    requires Same(s, s') && Agree(s.locals, s'.locals, stale) && Open(s)
    ensures ValuesRelate(EmitExpr(s, e), EmitExpr(s', e), Reads(e) !! stale)
    decreases e, 0
  {
    hide Diverged, Grows, Agree, AfterOperand, EmitArith, EmitConversion, Lowering.Define;
    var l, l' := EmitExpr(s, e.operand), EmitExpr(s', e.operand);
    ExprRelates(s, s', e.operand, stale);
    RegistersSame(s, s');
    EmitExprGrows(s, e.operand);
    EmitExprGrows(s', e.operand);
    if l'.Emitted? && l.Emitted? {
      AfterOperandIs(s, e);
      AfterOperandIs(s', e);
      if Reads(e) !! stale {
        AfterOperandSame(l.s, l'.s, l.a, e);
      } else {
        AfterOperandFrame(l.s, l.a, e);
        AfterOperandFrame(l'.s, l'.a, e);
        DivergedThroughPlain(l.s, l'.s, EmitExpr(s, e).s, EmitExpr(s', e).s);
      }
    }
  }

  lemma {:induction false} OperatorRelates(s: State, s': State, e: Expr, stale: set<string>)
    requires e.Arith? || e.Compare? || e.SameBool?
    requires Same(s, s') && Agree(s.locals, s'.locals, stale) && Open(s)
    ensures ValuesRelate(EmitExpr(s, e), EmitExpr(s', e), Reads(e) !! stale)
    decreases e, 1, 0
  {
    hide Diverged, Grows, Agree, AfterOperands, EmitArith, Lowering.Define, Same;
    var l' := EmitExpr(s', e.left);
    if l'.Emitted? && EmitExpr(l'.s, e.right).Emitted? {
      var l := EmitExpr(s, e.left);
      PairRelates(s, s', e.left, e.right, stale, e);
      RegistersSame(s, s');
      EmitExprGrows(s, e.left);
      EmitExprGrows(s', e.left);
      AfterOperandsIs(s', e);
      if l.Emitted? && EmitExpr(l.s, e.right).Emitted? {
        var r, r' := EmitExpr(l.s, e.right), EmitExpr(l'.s, e.right);
        EmitExprGrows(l.s, e.right);
        EmitExprGrows(l'.s, e.right);
        AfterOperandsIs(s, e);
        if Reads(e) !! stale {
          AfterOperandsSame(r.s, r'.s, l.a, r.a, e);
        } else {
          AfterOperandsFrame(r.s, l.a, r.a, e);
          AfterOperandsFrame(r'.s, l'.a, r'.a, e);
          DivergedThroughPlain(r.s, r'.s, EmitExpr(s, e).s, EmitExpr(s', e).s);
        }
      }
    }
  }

  lemma {:induction false} LogicRelates(s: State, s': State, e: Expr, stale: set<string>)
    requires e.And? || e.Or?
    requires Same(s, s') && Agree(s.locals, s'.locals, stale) && Open(s)
    ensures ValuesRelate(EmitExpr(s, e), EmitExpr(s', e), Reads(e) !! stale)
    decreases e, 0
  {
    hide Diverged, Grows, Agree, OpenLogic, CloseLogic, Same, EmitExpr, Cells;
    LogicIs(s, e);
    LogicIs(s', e);
    var isAnd := e.And?;
    var l, l' := EmitExpr(s, e.left), EmitExpr(s', e.left);
    ExprRelates(s, s', e.left, stale);
    RegistersSame(s, s');
    EmitExprGrows(s, e.left);
    EmitExprGrows(s', e.left);
    if l'.Emitted? && l.Emitted? {
      var u, u' := OpenLogic(l.s, l.a, isAnd), OpenLogic(l'.s, l'.a, isAnd);
      var r, r' := EmitExpr(u, e.right), EmitExpr(u', e.right);
      OpenLogicFrame(l.s, l.a, isAnd);
      OpenLogicFrame(l'.s, l'.a, isAnd);
      EmitExprGrows(u, e.right);
      EmitExprGrows(u', e.right);
      if Reads(e.left) !! stale {
        OpenLogicSame(l.s, l'.s, l.a, isAnd);
        ExprRelates(u, u', e.right, stale);
        if r'.Emitted? && r.Emitted? && Reads(e.right) !! stale {
          CloseLogicSame(l.s, l'.s, r.s, r'.s, r.a);
        }
      } else if r'.Emitted? && r.Emitted? {
        OpenLogicGrows(l.s, l.a, isAnd);
        OpenLogicGrows(l'.s, l'.a, isAnd);
        DivergedLater(l.s, l'.s, u, u');
        DivergedLater(u, u', r.s, r'.s);
      }
      if r'.Emitted? && r.Emitted? && !(Reads(e) !! stale) {
        CloseLogicGrows(l.s, r.s, r.a);
        CloseLogicGrows(l'.s, r'.s, r'.a);
        DivergedLater(r.s, r'.s, CloseLogic(l.s, r.s, r.a).s, CloseLogic(l'.s, r'.s, r'.a).s);
      }
    }
  }

  // ----- patterns, related -----

  ghost predicate ConditionsSame(r: Emission, r': Emission) {
    r.Emitted? && r'.Emitted? && r.a == r'.a && Same(r.s, r'.s) && Open(r.s)
  }

  lemma {:induction false} ConditionSame(s: State, s': State, p: Pattern, place: Place)
    requires Same(s, s') && Open(s)
    ensures ConditionsSame(EmitCondition(s, p, place), EmitCondition(s', p, place))
    decreases p
  {
    hide Same, EmitFieldConditions, EmitPayloadConditions, OpenTagTest, CloseTagTest, Open;
    EmitConditionFrame(s, p, place);
    match p
    case Wildcard =>
    case Binding(_) =>
    case StructPattern(fields) => FieldConditionsSame(s, s', fields, 0, place, Constant(Bool(true)));
    case EnumPattern(tag, payloads) =>
      var u, u' := OpenTagTest(s, tag, place), OpenTagTest(s', tag, place);
      OpenTagTestFrame(s, tag, place);
      OpenTagTestSame(s, s', tag, place);
      PayloadConditionsSame(u, u', payloads, 0, place, tag, Constant(Bool(true)));
      CloseTagTestSame(s, s', EmitPayloadConditions(u, payloads, 0, place, tag, Constant(Bool(true))),
                       EmitPayloadConditions(u', payloads, 0, place, tag, Constant(Bool(true))));
  }

  lemma OpenTagTestSame(s: State, s': State, tag: nat, place: Place)
    requires Same(s, s')
    ensures Same(OpenTagTest(s, tag, place), OpenTagTest(s', tag, place))
  {
  }

  lemma CloseTagTestSame(before: State, before': State, r: Emission, r': Emission)
    requires Same(before, before') && r.Emitted? && r'.Emitted? && r.a == r'.a && Same(r.s, r'.s)
    ensures var t, t' := CloseTagTest(before, r.s, r.a), CloseTagTest(before', r'.s, r'.a);
            t.Emitted? && t'.Emitted? && t.a == t'.a && Same(t.s, t'.s)
  {
  }

  lemma ConjoinSame(s: State, s': State, a: Operand, b: Operand)
    requires Same(s, s') && Open(s)
    ensures ConditionsSame(Conjoin(s, a, b), Conjoin(s', a, b))
  {
    DefineFrame(s, Binary(s.registers, IAnd, a, b));
  }

  lemma {:induction false} FieldConditionsSame(
    s: State, s': State, fields: seq<FieldPattern>, i: nat, place: Place, acc: Operand)
    requires Same(s, s') && Open(s)
    ensures ConditionsSame(EmitFieldConditions(s, fields, i, place, acc), EmitFieldConditions(s', fields, i, place, acc))
    decreases fields, |fields| - i
  {
    hide Same, Conjoin, EmitFieldCondition, Open;
    if i < |fields| {
      FieldConditionSame(s, s', fields[i], place);
      var r, r' := EmitFieldCondition(s, fields[i], place), EmitFieldCondition(s', fields[i], place);
      ConjoinSame(r.s, r'.s, acc, r.a);
      var c, c' := Conjoin(r.s, acc, r.a), Conjoin(r'.s, acc, r'.a);
      FieldConditionsSame(c.s, c'.s, fields, i + 1, place, c.a);
    }
  }

  lemma {:induction false} FieldConditionSame(s: State, s': State, f: FieldPattern, place: Place)
    requires Same(s, s') && Open(s)
    ensures ConditionsSame(EmitFieldCondition(s, f, place), EmitFieldCondition(s', f, place))
    decreases f
  {
    ConditionSame(s, s', f.pattern, FieldPlace(place, f.index));
  }

  lemma ExtractSame(s: State, s': State, place: Place, tag: nat, index: nat)
    requires Same(s, s') && Open(s)
    ensures Same(ExtractPayload(s, place, tag, index), ExtractPayload(s', place, tag, index))
    ensures Open(ExtractPayload(s, place, tag, index)) && Cells(s) == Cells(s')
    ensures Cells(ExtractPayload(s, place, tag, index)) == Cells(s) + 1
    ensures ExtractPayload(s, place, tag, index).locals == s.locals
    ensures ExtractPayload(s', place, tag, index).locals == s'.locals
  {
    ExtractFrame(s, place, tag, index);
  }

  lemma {:induction false} PayloadConditionsSame(
    s: State, s': State, payloads: seq<Pattern>, i: nat, place: Place, tag: nat, acc: Operand)
    requires Same(s, s') && Open(s)
    ensures ConditionsSame(EmitPayloadConditions(s, payloads, i, place, tag, acc),
                           EmitPayloadConditions(s', payloads, i, place, tag, acc))
    decreases payloads, |payloads| - i
  {
    hide Same, Conjoin, EmitCondition, Open, ExtractPayload;
    if i < |payloads| {
      ExtractSame(s, s', place, tag, i);
      var u, u', q := ExtractPayload(s, place, tag, i), ExtractPayload(s', place, tag, i), Place(Cells(s), []);
      ConditionSame(u, u', payloads[i], q);
      var r, r' := EmitCondition(u, payloads[i], q), EmitCondition(u', payloads[i], q);
      ConjoinSame(r.s, r'.s, acc, r.a);
      var c, c' := Conjoin(r.s, acc, r.a), Conjoin(r'.s, acc, r'.a);
      PayloadConditionsSame(c.s, c'.s, payloads, i + 1, place, tag, c.a);
    }
  }

  /** Names added since `l` live in cells allocated since `n`. */
  predicate Extended(l: seq<Local>, t: seq<Local>, n: nat) {
    l <= t && forall i :: |l| <= i < |t| ==> t[i].cell >= n
  }

  /** Binding the names of a pattern refreshes them in both tables. */
  ghost predicate BindsRelate(s: State, s': State, u: State, u': State, stale: set<string>) {
    && Same(u, u') && Agree(u.locals, u'.locals, stale) && Open(u) && LocalsOk(u) && Cells(s) <= Cells(u)
    && Extended(s'.locals, u'.locals, Cells(s'))
  }

  lemma BindsRelateThrough(s: State, s': State, t: State, t': State, u: State, u': State, m: set<string>, n: set<string>)
    requires BindsRelate(s, s', t, t', m) && BindsRelate(t, t', u, u', n) && Same(s, s')
    ensures BindsRelate(s, s', u, u', n)
  {
    assert Cells(s') <= Cells(t');
  }

  lemma {:induction false} BindRelates(s: State, s': State, p: Pattern, place: Place, stale: set<string>)
    requires Same(s, s') && Open(s) && LocalsOk(s) && Agree(s.locals, s'.locals, stale)
    ensures BindsRelate(s, s', EmitBind(s, p, place), EmitBind(s', p, place), stale - PatternNames(p))
    decreases p
  {
    hide Agree, EmitBindFields, EmitBindPayloads, LocalsOk;
    match p
    case Wildcard => assert stale - {} == stale;
    case Binding(x) => BindingRelates(s, s', x, place, stale);
    case StructPattern(fields) => BindFieldsRelate(s, s', fields, 0, place, stale);
    case EnumPattern(tag, payloads) => BindPayloadsRelate(s, s', payloads, 0, place, tag, stale);
  }

  lemma BindingRelates(s: State, s': State, x: string, place: Place, stale: set<string>)
    requires Same(s, s') && Open(s) && LocalsOk(s) && Agree(s.locals, s'.locals, stale)
    ensures BindsRelate(s, s', EmitBind(s, Binding(x), place), EmitBind(s', Binding(x), place), stale - {x})
  {
    hide Agree;
    AgreeAdded(s.locals, s'.locals, stale, x, Cells(s));
  }

  lemma {:induction false} BindFieldsRelate(
    s: State, s': State, fields: seq<FieldPattern>, i: nat, place: Place, stale: set<string>)
    requires Same(s, s') && Open(s) && LocalsOk(s) && Agree(s.locals, s'.locals, stale)
    ensures BindsRelate(s, s', EmitBindFields(s, fields, i, place), EmitBindFields(s', fields, i, place),
                        stale - FieldNames(fields, i))
    decreases fields, |fields| - i
  {
    hide Agree, EmitBindField, LocalsOk, FieldName;
    if i >= |fields| {
      assert stale - {} == stale;
    } else {
      BindFieldRelates(s, s', fields[i], place, stale);
      var u, u' := EmitBindField(s, fields[i], place), EmitBindField(s', fields[i], place);
      var m := stale - FieldName(fields[i]);
      BindFieldsRelate(u, u', fields, i + 1, place, m);
      assert m - FieldNames(fields, i + 1) == stale - FieldNames(fields, i);
      BindsRelateThrough(s, s', u, u', EmitBindFields(u, fields, i + 1, place), EmitBindFields(u', fields, i + 1, place),
                         m, m - FieldNames(fields, i + 1));
    }
  }

  lemma {:induction false} BindFieldRelates(s: State, s': State, f: FieldPattern, place: Place, stale: set<string>)
    requires Same(s, s') && Open(s) && LocalsOk(s) && Agree(s.locals, s'.locals, stale)
    ensures BindsRelate(s, s', EmitBindField(s, f, place), EmitBindField(s', f, place), stale - FieldName(f))
    decreases f
  {
    BindRelates(s, s', f.pattern, FieldPlace(place, f.index), stale);
  }

  lemma {:induction false} BindPayloadsRelate(
    s: State, s': State, payloads: seq<Pattern>, i: nat, place: Place, tag: nat, stale: set<string>)
    requires Same(s, s') && Open(s) && LocalsOk(s) && Agree(s.locals, s'.locals, stale)
    ensures BindsRelate(s, s', EmitBindPayloads(s, payloads, i, place, tag), EmitBindPayloads(s', payloads, i, place, tag),
                        stale - PayloadNames(payloads, i))
    decreases payloads, |payloads| - i
  {
    hide Agree, EmitBind, LocalsOk, PatternNames, ExtractPayload;
    if i >= |payloads| {
      assert stale - {} == stale;
    } else {
      var q := Place(Cells(s), []);
      ExtractSame(s, s', place, tag, i);
      var t, t' := ExtractPayload(s, place, tag, i), ExtractPayload(s', place, tag, i);
      LocalsOkMore(s, t);
      BindRelates(t, t', payloads[i], q, stale);
      var u, u' := EmitBind(t, payloads[i], q), EmitBind(t', payloads[i], q);
      var m := stale - PatternNames(payloads[i]);
      BindPayloadsRelate(u, u', payloads, i + 1, place, tag, m);
      assert m - PayloadNames(payloads, i + 1) == stale - PayloadNames(payloads, i);
      BindsRelateThrough(t, t', u, u', EmitBindPayloads(u, payloads, i + 1, place, tag),
                         EmitBindPayloads(u', payloads, i + 1, place, tag), m, m - PayloadNames(payloads, i + 1));
    }
  }

  // ----- matches, related -----

  lemma OpenMatchSame(s: State, s': State, t: Type, a: Operand, arms: nat)
    requires Same(s, s')
    ensures Same(OpenMatch(s, t, a, arms), OpenMatch(s', t, a, arms)) && MatchTag(s, t) == MatchTag(s', t)
  {
    var stored, stored' := Put(Allocate(s), Store(Cells(s), a)), Put(Allocate(s'), Store(Cells(s'), a));
    var i := LoadTag(s.registers, Place(Cells(s), []));
    var n, n' := if t.EnumType? then Lowering.Define(stored, i) else stored, if t.EnumType? then Lowering.Define(stored', i) else stored';
    NewBlocksAre(n, arms);
    NewBlocksAre(n', arms);
  }

  lemma {:induction false} DispatchSame(
    s: State, s': State, t: Type, cases: seq<Case>, i: nat, base: nat, storage: nat, tag: Option<Operand>)
    requires Same(s, s') && Open(s) && 0 < base && base + |cases| <= |s.blocks|
    ensures var r, r' := EmitDispatch(s, t, cases, i, base, storage, tag), EmitDispatch(s', t, cases, i, base, storage, tag);
            (r.Some? <==> r'.Some?) && (r.Some? ==> Same(r.value, r'.value))
    decreases |cases| - i, 1
  {
    hide AnalyzeNode, EmitCondition, Dispatched, Lowering.Define, Matches;
    if i < |cases| && Analyze(t, cases[i].pattern).Some? {
      var p := cases[i].pattern;
      match DispatchOf(Analyze(t, p).value)
      case Always =>
      case ByTag(k) =>
        if tag.Some? {
          var i1 := ICmp(s.registers, EQ, tag.value, Constant(Bits(64, k)));
          DefineSame(s, s', i1);
          DefineFrame(s, i1);
          DispatchNextSame(s, Lowering.Define(s, i1), Lowering.Define(s', i1), Register(s.registers), t, cases, i, base, storage, tag);
        }
      case ByTest =>
        ConditionSame(s, s', p, Place(storage, []));
        EmitConditionFrame(s, p, Place(storage, []));
        var r, r' := EmitCondition(s, p, Place(storage, [])), EmitCondition(s', p, Place(storage, []));
        DispatchNextSame(s, r.s, r'.s, r.a, t, cases, i, base, storage, tag);
    }
  }

  lemma {:induction false} DispatchNextSame(
    s: State, s1: State, s1': State, c: Operand, t: Type, cases: seq<Case>, i: nat, base: nat, storage: nat, tag: Option<Operand>)
    requires i < |cases| && Same(s1, s1') && Plain(s, s1) && Open(s1) && 0 < base && base + |cases| <= |s.blocks|
    ensures var u, u' := Dispatched(s1, c, base + i), Dispatched(s1', c, base + i);
            var r := EmitDispatch(u, t, cases, i + 1, base, storage, tag);
            var r' := EmitDispatch(u', t, cases, i + 1, base, storage, tag);
            (r.Some? <==> r'.Some?) && (r.Some? ==> Same(r.value, r'.value))
    decreases |cases| - i, 0
  {
    hide EmitDispatch;
    DispatchedFrame(s1, c, base + i);
    DispatchSame(Dispatched(s1, c, base + i), Dispatched(s1', c, base + i), t, cases, i + 1, base, storage, tag);
  }

  // ----- how the tables grow -----

  lemma ExtendedThrough(l: seq<Local>, t: seq<Local>, n: nat, u: seq<Local>, m: nat)
    requires Extended(l, t, n) && Extended(t, u, m) && n <= m
    ensures Extended(l, u, n)
  {
  }

  lemma ExtendedMore(l: seq<Local>, t: seq<Local>, n: nat, m: nat)
    requires Extended(l, t, m) && n <= m
    ensures Extended(l, t, n)
  {
  }

  /** Every name a statement adds to the table lives in a cell it allocated. */
  lemma {:induction false} StatementExtends(s: State, stmt: Stmt, returnsValue: bool, pops: bool)
    requires Open(s) && EmitStatement(s, stmt, returnsValue, pops).Lowered?
    ensures var r := EmitStatement(s, stmt, returnsValue, pops);
            Extended(s.locals, r.s.locals, Cells(s)) && Cells(s) <= Cells(r.s)
    decreases stmt
  {
    hide EmitExpr, EmitFrom, OpenIf, JoinIf, OpenWhile, CloseWhile, JoinArms, EmitDispatch, EmitArms, OpenMatch, Touches, Plain;
    EmitStatementFrame(s, stmt, returnsValue, pops);
    var r := EmitStatement(s, stmt, returnsValue, pops);
    FlowCells(s, r.s, r.terminated);
    match stmt
    case Declare(_, _, _) =>
    case Assign(_, e) => EmitExprGrows(s, e);
    case Return(None) =>
    case Return(Some(e)) => EmitExprGrows(s, e);
    case If(c, thenBlock, elseBlock) => IfExtends(s, stmt, returnsValue, pops);
    case Unsafe(body) => FromExtends(s, body, 0, returnsValue, pops);
    case While(c, body) =>
      OpenWhileFrame(s);
      OpenWhileFlows(s);
      EmitExprGrows(OpenWhile(s), c);
      EmitExprFrame(OpenWhile(s), c);
      var v := EmitExpr(OpenWhile(s), c);
      var entry := LoopBody(s, v.s, v.a);
      WhileBodyFrame(s, v.s, v.a);
      LoopBodyCells(s, v.s, v.a);
      FromExtends(entry, body, 0, returnsValue, pops);
      var b := EmitFrom(entry, body, 0, returnsValue, pops);
      ExtendedMore(s.locals, b.s.locals, Cells(s), Cells(entry));
      CloseWhileLocals(s, Lowered(LeaveBlock(s, b.s, pops), b.terminated));
    case Match(_, _, _) => MatchKeepsLocals(s, stmt, returnsValue, pops);
  }

  lemma CloseWhileLocals(s: State, b: Lowered)
    requires b.Lowered?
    ensures CloseWhile(s, b).Lowered? && CloseWhile(s, b).s.locals == b.s.locals
  {
  }

  lemma {:induction false} IfExtends(s: State, stmt: Stmt, returnsValue: bool, pops: bool)
    requires stmt.If? && Open(s) && EmitStatement(s, stmt, returnsValue, pops).Lowered?
    ensures Extended(s.locals, EmitStatement(s, stmt, returnsValue, pops).s.locals, Cells(s))
    decreases stmt, 0
  {
    hide EmitExpr, EmitFrom, OpenIf, JoinIf, JoinArms, Touches;
    EmitExprGrows(s, stmt.condition);
    var r := EmitExpr(s, stmt.condition);
    var u := OpenIf(r.s, r.a);
    OpenIfFrame(r.s, r.a);
    OpenIfCells(r.s, r.a);
    FromExtends(u, stmt.thenBlock, 0, returnsValue, pops);
    EmitFromFrame(u, stmt.thenBlock, 0, returnsValue, pops);
    var y := EmitFrom(u, stmt.thenBlock, 0, returnsValue, pops);
    var s3i := Position(LeaveBlock(r.s, y.s, pops), |r.s.blocks| + 1);
    IfElseAt(r.s, r.a, y.s, y.terminated, s3i);
    FromExtends(s3i, stmt.elseBlock, 0, returnsValue, pops);
    var n := EmitFrom(s3i, stmt.elseBlock, 0, returnsValue, pops);
    ExtendedMore(s.locals, y.s.locals, Cells(s), Cells(u));
    ExtendedThrough(s.locals, s3i.locals, Cells(s), n.s.locals, Cells(s3i));
    var left := LeaveBlock(r.s, n.s, pops);
    JoinIfIsJoinArms(left, ExitOf(y), ExitOf(n));
    JoinArmsLocals(left, [ExitOf(y), ExitOf(n)]);
  }

  lemma OpenIfCells(s: State, a: Operand)
    ensures Cells(OpenIf(s, a)) == Cells(s)
  {
  }

  lemma MatchKeepsLocals(s: State, stmt: Stmt, returnsValue: bool, pops: bool)
    requires stmt.Match? && Open(s) && EmitStatement(s, stmt, returnsValue, pops).Lowered?
    ensures EmitStatement(s, stmt, returnsValue, pops).s.locals == s.locals
  {
    hide EmitExpr, OpenMatch, EmitDispatch, EmitArms, JoinArms, Touches;
    var cases := stmt.cases;
    EmitExprFrame(s, stmt.scrutinee);
    var r := EmitExpr(s, stmt.scrutinee);
    var s2 := OpenMatch(r.s, stmt.matched, r.a, |cases|);
    OpenMatchFrame(r.s, stmt.matched, r.a, |cases|);
    OpenMember(r.s, s2, {r.s.at} + Ids(|r.s.blocks|, |cases|));
    var d := EmitDispatch(s2, stmt.matched, cases, 0, |r.s.blocks|, Cells(r.s), MatchTag(r.s, stmt.matched));
    EmitDispatchLocals(s2, stmt.matched, cases, 0, |r.s.blocks|, Cells(r.s), MatchTag(r.s, stmt.matched));
    EmitArmsLocals(d.value, cases, 0, |r.s.blocks|, Cells(r.s), returnsValue, pops);
    var a := EmitArms(d.value, cases, 0, |r.s.blocks|, Cells(r.s), returnsValue, pops);
    JoinArmsLocals(a.s, a.exits);
  }

  /** Some name added since `l` is `x`. */
  predicate Adds(l: seq<Local>, t: seq<Local>, x: string) {
    exists i :: |l| <= i < |t| && t[i].name == x
  }

  lemma {:induction false} FromExtends(s: State, block: seq<Stmt>, i: nat, returnsValue: bool, pops: bool)
    requires Open(s) && EmitFrom(s, block, i, returnsValue, pops).Lowered?
    ensures var r := EmitFrom(s, block, i, returnsValue, pops);
            && Extended(s.locals, r.s.locals, Cells(s)) && Cells(s) <= Cells(r.s)
            && forall x :: x in DeclaredFrom(block, i) ==> Adds(s.locals, r.s.locals, x)
    decreases block, |block| - i
  {
    hide EmitStatement, Touches;
    if i < |block| {
      StatementExtends(s, block[i], returnsValue, pops);
      EmitStatementFrame(s, block[i], returnsValue, pops);
      EmissionEnds(s, block[i], returnsValue, pops);
      var r := EmitStatement(s, block[i], returnsValue, pops);
      DeclareAdds(s, block[i], returnsValue, pops);
      if !r.terminated {
        FlowReports(s, r.s, false);
        FromExtends(r.s, block, i + 1, returnsValue, pops);
        var n := EmitFrom(r.s, block, i + 1, returnsValue, pops);
        ExtendedThrough(s.locals, r.s.locals, Cells(s), n.s.locals, Cells(r.s));
        AddsThrough(s.locals, r.s.locals, n.s.locals);
      }
    }
  }

  lemma AddsThrough(l: seq<Local>, t: seq<Local>, u: seq<Local>)
    requires l <= t <= u
    ensures forall x :: Adds(l, t, x) || Adds(t, u, x) ==> Adds(l, u, x)
    ensures forall x :: Adds(l, u, x) ==> Adds(l, t, x) || Adds(t, u, x)
  {
    forall x | Adds(l, t, x)
      ensures Adds(l, u, x)
    {
      var i :| |l| <= i < |t| && t[i].name == x;
      assert u[i].name == x;
    }
    forall x | Adds(t, u, x)
      ensures Adds(l, u, x)
    {
      var i :| |t| <= i < |u| && u[i].name == x;
    }
    forall x | Adds(l, u, x)
      ensures Adds(l, t, x) || Adds(t, u, x)
    {
      var i :| |l| <= i < |u| && u[i].name == x;
      if i < |t| {
        assert t[i].name == x;
      }
    }
  }

  lemma DeclareAdds(s: State, stmt: Stmt, returnsValue: bool, pops: bool)
    requires EmitStatement(s, stmt, returnsValue, pops).Lowered?
    ensures stmt.Declare? ==>
              var t := EmitStatement(s, stmt, returnsValue, pops).s.locals;
              t == s.locals + [Local(stmt.name, Cells(s))] && Adds(s.locals, t, stmt.name)
              && forall x :: Adds(s.locals, t, x) ==> x == stmt.name
  {
    if stmt.Declare? {
      var t := EmitStatement(s, stmt, returnsValue, pops).s.locals;
      assert t[|s.locals|].name == stmt.name;
    }
  }

  /** With popping, a block's table grows by exactly the names it declares. */
  lemma {:induction false} FromDeclares(s: State, block: seq<Stmt>, i: nat, returnsValue: bool)
    requires Open(s) && LocalsOk(s) && EmitFrom(s, block, i, returnsValue, true).Lowered?
    ensures var r := EmitFrom(s, block, i, returnsValue, true);
            && s.locals <= r.s.locals
            && forall x :: x in DeclaredFrom(block, i) <==> Adds(s.locals, r.s.locals, x)
    decreases |block| - i
  {
    hide EmitStatement, Touches, LocalsOk;
    if i < |block| {
      StatementLocals(s, block[i], returnsValue);
      EmitStatementFrame(s, block[i], returnsValue, true);
      EmissionEnds(s, block[i], returnsValue, true);
      var r := EmitStatement(s, block[i], returnsValue, true);
      DeclareAdds(s, block[i], returnsValue, true);
      if !r.terminated {
        FlowReports(s, r.s, false);
        FromDeclares(r.s, block, i + 1, returnsValue);
        AddsThrough(s.locals, r.s.locals, EmitFrom(r.s, block, i + 1, returnsValue, true).s.locals);
      }
    }
  }

  lemma LookupPrefix(l: seq<Local>, t: seq<Local>, x: string)
    requires l <= t && !Adds(l, t, x)
    ensures Lookup(t, x) == Lookup(l, x)
  {
    match Newest(LocalNames(l), x)
    case Some(i) =>
      assert forall j :: i < j < |l| ==> LocalNames(l)[j] == l[j].name;
      LookupIs(t, x, i);
    case None =>
      assert forall j :: 0 <= j < |l| ==> LocalNames(l)[j] == l[j].name;
      LookupNone(t, x);
  }

  lemma LookupRecent(l: seq<Local>, t: seq<Local>, n: nat, x: string)
    requires Extended(l, t, n) && Adds(l, t, x)
    ensures Lookup(t, x).Some? && Lookup(t, x).value >= n
  {
    var i :| |l| <= i < |t| && t[i].name == x;
    assert LocalNames(t)[i] == x;
    var k := Newest(LocalNames(t), x);
    assert k.Some?;
  }

  lemma LookupOlder(l: seq<Local>, n: nat, x: string)
    requires forall i :: 0 <= i < |l| ==> l[i].cell < n
    ensures Lookup(l, x).Some? ==> Lookup(l, x).value < n
  {
  }

  /** Forgetting a block's names in one table only makes exactly those names stale as well. */
  lemma AgreePopped(
    l: seq<Local>, t: seq<Local>, l': seq<Local>, t': seq<Local>, stale: set<string>, declared: set<string>, n: nat)
    requires forall i :: 0 <= i < |l| ==> l[i].cell < n
    requires l <= t && Extended(l', t', n) && Agree(t, t', stale)
    requires forall x :: x in declared <==> Adds(l, t, x)
    requires forall x :: x in declared ==> Adds(l', t', x)
    ensures Agree(l, t', stale + declared)
  {
    forall x
      ensures Lookup(l, x) == Lookup(t', x) <==> x !in stale + declared
      ensures Lookup(t', x).None? ==> Lookup(l, x).None?
    {
      assert Lookup(t, x) == Lookup(t', x) <==> x !in stale;
      if x in declared {
        LookupRecent(l', t', n, x);
        LookupOlder(l, n, x);
      } else {
        LookupPrefix(l, t, x);
      }
    }
  }

  // ----- statements, related -----

  /** Emissions of statements from the two tables: equal with agreeing tables, or visibly different or rejected. */
  ghost predicate LoweredRelate(r: Lowered, r': Lowered, after: Option<set<string>>) {
    r'.Lowered? ==>
      match after
      case Some(stale) =>
        r.Lowered? && r.terminated == r'.terminated && Same(r.s, r'.s) && Agree(r.s.locals, r'.s.locals, stale)
      case None => r.Lowered? ==> Diverged(r.s, r'.s)
  }

  /** The two builder states before a statement. */
  ghost predicate Paired(s: State, s': State, stale: set<string>) {
    Same(s, s') && Open(s) && LocalsOk(s) && Agree(s.locals, s'.locals, stale)
  }

  lemma StatementGrows(s: State, stmt: Stmt, returnsValue: bool, pops: bool)
    ensures var r := EmitStatement(s, stmt, returnsValue, pops);
            r.Lowered? ==> Grows(s, r.s) && (r.terminated <==> !Open(r.s))
  {
    hide EmitStatement, Touches, Grows;
    EmitStatementFrame(s, stmt, returnsValue, pops);
    var r := EmitStatement(s, stmt, returnsValue, pops);
    if r.Lowered? {
      TouchesGrows(s, r.s, Exit(r.s, r.terminated));
      FlowReports(s, r.s, r.terminated);
    }
  }

  lemma FromGrows(s: State, block: seq<Stmt>, i: nat, returnsValue: bool, pops: bool)
    requires Open(s)
    ensures var r := EmitFrom(s, block, i, returnsValue, pops); r.Lowered? ==> Grows(s, r.s)
  {
    hide EmitFrom, Touches, Grows;
    EmitFromFrame(s, block, i, returnsValue, pops);
    var r := EmitFrom(s, block, i, returnsValue, pops);
    if r.Lowered? {
      TouchesGrows(s, r.s, Exit(r.s, r.terminated));
    }
  }

  /** The same statement emitted from both tables. */
  lemma {:induction false} StatementRelates(s: State, s': State, stmt: Stmt, returnsValue: bool, stale: set<string>)
    requires Paired(s, s', stale)
    ensures LoweredRelate(EmitStatement(s, stmt, returnsValue, true), EmitStatement(s', stmt, returnsValue, false),
                          AfterStatement(stmt, stale))
    decreases stmt, 3
  {
    hide EmitExpr, EmitFrom, Agree, Diverged, Grows, Same, LocalsOk, LoweredRelate, EmitStatement, AfterStatement;
    RegistersSame(s, s') by { PairedParts(s, s', stale); }
    match stmt
    case Declare(x, _, _) => DeclareRelates(s, s', stmt, returnsValue, stale);
    case Assign(x, e) => AssignRelates(s, s', stmt, returnsValue, stale);
    case Return(_) => ReturnRelates(s, s', stmt, returnsValue, stale);
    case If(_, _, _) => IfRelates(s, s', stmt, returnsValue, stale);
    case Unsafe(_) => UnsafeRelates(s, s', stmt, returnsValue, stale);
    case While(_, _) => WhileRelates(s, s', stmt, returnsValue, stale);
    case Match(_, _, _) => MatchRelates(s, s', stmt, returnsValue, stale);
  }

  lemma PairedParts(s: State, s': State, stale: set<string>)
    requires Paired(s, s', stale)
    ensures Same(s, s') && Open(s) && Open(s') && LocalsOk(s) && Agree(s.locals, s'.locals, stale)
    ensures Cells(s) == Cells(s') && |s.blocks| == |s'.blocks|
  {
  }

  lemma DeclareRelates(s: State, s': State, stmt: Stmt, returnsValue: bool, stale: set<string>)
    requires Paired(s, s', stale) && stmt.Declare?
    ensures LoweredRelate(EmitStatement(s, stmt, returnsValue, true), EmitStatement(s', stmt, returnsValue, false),
                          AfterStatement(stmt, stale))
  {
    hide Agree;
    AgreeAdded(s.locals, s'.locals, stale, stmt.name, Cells(s));
  }

  lemma AssignRelates(s: State, s': State, stmt: Stmt, returnsValue: bool, stale: set<string>)
    requires Paired(s, s', stale) && stmt.Assign?
    ensures LoweredRelate(EmitStatement(s, stmt, returnsValue, true), EmitStatement(s', stmt, returnsValue, false),
                          AfterStatement(stmt, stale))
  {
    hide EmitExpr, Diverged, LocalsOk, Grows;
    var x, e := stmt.name, stmt.value;
    assert Lookup(s.locals, x) == Lookup(s'.locals, x) <==> x !in stale;
    EmitExprGrows(s, e);
    EmitExprGrows(s', e);
    ExprRelates(s, s', e, stale);
    var v, v' := EmitExpr(s, e), EmitExpr(s', e);
    var r, r' := EmitStatement(s, stmt, returnsValue, true), EmitStatement(s', stmt, returnsValue, false);
    if r.Lowered? && r'.Lowered? {
      var c, c' := Lookup(s.locals, x).value, Lookup(s'.locals, x).value;
      if !(Reads(e) !! stale) {
        PutGrows(v.s, Store(c, v.a));
        PutGrows(v'.s, Store(c', v'.a));
        DivergedLater(v.s, v'.s, r.s, r'.s);
      } else if x in stale {
        DivergedPut(v.s, v'.s, Store(c, v.a), Store(c', v'.a));
      } else {
        DefineSame(v.s, v'.s, Store(c, v.a));
      }
    }
  }

  lemma PutGrows(s: State, i: Instruction)
    ensures Grows(s, Put(s, i))
  {
  }

  lemma EndGrows(s: State, end: Terminator)
    ensures Grows(s, End(s, end))
  {
  }

  lemma ReturnRelates(s: State, s': State, stmt: Stmt, returnsValue: bool, stale: set<string>)
    requires Paired(s, s', stale) && stmt.Return?
    ensures LoweredRelate(EmitStatement(s, stmt, returnsValue, true), EmitStatement(s', stmt, returnsValue, false),
                          AfterStatement(stmt, stale))
  {
    hide EmitExpr, Diverged, LocalsOk, Grows, Agree;
    if stmt.result.Some? {
      var e := stmt.result.value;
      EmitExprGrows(s, e);
      EmitExprGrows(s', e);
      ExprRelates(s, s', e, stale);
      var v, v' := EmitExpr(s, e), EmitExpr(s', e);
      if returnsValue && v.Emitted? && v'.Emitted? && !(Reads(e) !! stale) {
        EndGrows(v.s, Ret(v.a));
        EndGrows(v'.s, Ret(v'.a));
        DivergedLater(v.s, v'.s, End(v.s, Ret(v.a)), End(v'.s, Ret(v'.a)));
      }
    }
  }

  lemma {:induction false} FromRelates(
    s: State, s': State, block: seq<Stmt>, i: nat, returnsValue: bool, stale: set<string>)
    requires Paired(s, s', stale)
    ensures LoweredRelate(EmitFrom(s, block, i, returnsValue, true), EmitFrom(s', block, i, returnsValue, false),
                          AfterFrom(block, i, stale))
    decreases block, |block| - i
  {
    hide EmitStatement, AfterStatement, Agree, Diverged, Grows, Same, LocalsOk, Open;
    if i < |block| {
      StatementRelates(s, s', block[i], returnsValue, stale);
      EmissionEnds(s, block[i], returnsValue, true);
      EmissionEnds(s', block[i], returnsValue, false);
      StatementGrows(s, block[i], returnsValue, true);
      StatementGrows(s', block[i], returnsValue, false);
      var r, r' := EmitStatement(s, block[i], returnsValue, true), EmitStatement(s', block[i], returnsValue, false);
      if r'.Lowered? && r.Lowered? && !r.terminated {
        StatementLocals(s, block[i], returnsValue);
        if AfterStatement(block[i], stale).Some? {
          FromRelates(r.s, r'.s, block, i + 1, returnsValue, AfterStatement(block[i], stale).value);
        } else {
          DivergedThroughFrom(r.s, r'.s, block, i + 1, returnsValue);
        }
      }
    }
  }

  lemma DivergedThroughFrom(s: State, s': State, block: seq<Stmt>, i: nat, returnsValue: bool)
    requires Diverged(s, s') && Open(s) && Open(s')
    ensures var r, r' := EmitFrom(s, block, i, returnsValue, true), EmitFrom(s', block, i, returnsValue, false);
            r.Lowered? && r'.Lowered? ==> Diverged(r.s, r'.s)
  {
    hide EmitFrom, Diverged, Grows;
    FromGrows(s, block, i, returnsValue, true);
    FromGrows(s', block, i, returnsValue, false);
    var r, r' := EmitFrom(s, block, i, returnsValue, true), EmitFrom(s', block, i, returnsValue, false);
    if r.Lowered? && r'.Lowered? {
      DivergedLater(s, s', r.s, r'.s);
    }
  }

  /** A block whose names are forgotten in the one table and left in the other. */
  lemma {:induction false} BlockRelates(
    l: seq<Local>, s: State, s': State, block: seq<Stmt>, returnsValue: bool, stale: set<string>)
    requires Paired(s, s', stale) && l == s.locals
    ensures var r, r' := EmitFrom(s, block, 0, returnsValue, true), EmitFrom(s', block, 0, returnsValue, false);
            r'.Lowered? ==>
              match AfterBlock(block, stale)
              case Some(next) =>
                r.Lowered? && r.terminated == r'.terminated && Same(r.s, r'.s) && Agree(l, r'.s.locals, next)
              case None => r.Lowered? ==> Diverged(r.s, r'.s)
    decreases block, |block| + 1
  {
    hide EmitFrom, Agree, Diverged, Same, LocalsOk;
    FromRelates(s, s', block, 0, returnsValue, stale);
    PairedParts(s, s', stale);
    var r, r' := EmitFrom(s, block, 0, returnsValue, true), EmitFrom(s', block, 0, returnsValue, false);
    if r'.Lowered? && r.Lowered? && AfterFrom(block, 0, stale).Some? {
      FromDeclares(s, block, 0, returnsValue);
      FromExtends(s', block, 0, returnsValue, false);
      OldCells(s);
      AgreePopped(l, r.s.locals, s'.locals, r'.s.locals, AfterFrom(block, 0, stale).value, DeclaredFrom(block, 0), Cells(s));
    }
  }

  lemma OldCells(s: State)
    requires LocalsOk(s)
    ensures forall i :: 0 <= i < |s.locals| ==> s.locals[i].cell < Cells(s)
  {
  }

  lemma {:induction false} UnsafeRelates(s: State, s': State, stmt: Stmt, returnsValue: bool, stale: set<string>)
    requires Paired(s, s', stale) && stmt.Unsafe?
    ensures LoweredRelate(EmitStatement(s, stmt, returnsValue, true), EmitStatement(s', stmt, returnsValue, false),
                          AfterStatement(stmt, stale))
    decreases stmt, 2
  {
    hide EmitFrom, Agree, AfterBlock;
    BlockRelates(s.locals, s, s', stmt.body, returnsValue, stale);
    var r, r' := EmitFrom(s, stmt.body, 0, returnsValue, true), EmitFrom(s', stmt.body, 0, returnsValue, false);
    if r.Lowered? && r'.Lowered? && Diverged(r.s, r'.s) {
      DivergedKept(s, r.s, r'.s);
    }
  }

  lemma DivergedKept(before: State, s: State, s': State)
    requires Diverged(s, s')
    ensures Diverged(KeepLocals(before, s), s')
  {
    hide DiffersAt;
  }

  // ----- conditionals, related -----

  function IfElse(s1: State, y: State, pops: bool): State {
    Position(LeaveBlock(s1, y, pops), |s1.blocks| + 1)
  }

  /** The states a conditional passes through. */
  lemma IfPath(s: State, stmt: Stmt, returnsValue: bool, pops: bool)
    requires stmt.If? && Open(s) && EmitStatement(s, stmt, returnsValue, pops).Lowered?
    ensures var c := EmitExpr(s, stmt.condition);
            c.Emitted? && Open(c.s) && c.s.locals == s.locals && Cells(s) <= Cells(c.s) &&
            var u := OpenIf(c.s, c.a);
            var y := EmitFrom(u, stmt.thenBlock, 0, returnsValue, pops);
            && Open(u) && u.locals == s.locals && Cells(u) == Cells(c.s) && y.Lowered? && Cells(u) <= Cells(y.s) &&
            var z := IfElse(c.s, y.s, pops);
            var n := EmitFrom(z, stmt.elseBlock, 0, returnsValue, pops);
            && Open(z) && z.at == |c.s.blocks| + 1 && z.locals == LeaveBlock(c.s, y.s, pops).locals && Cells(z) == Cells(y.s)
            && n.Lowered?
            && EmitStatement(s, stmt, returnsValue, pops) == JoinIf(LeaveBlock(c.s, n.s, pops), ExitOf(y), ExitOf(n))
            && Grows(c.s, u) && Grows(u, y.s) && Grows(y.s, z) && Grows(z, n.s)
            && Grows(n.s, EmitStatement(s, stmt, returnsValue, pops).s)
  {
    hide EmitExpr, EmitFrom, JoinIf, OpenIf, Grows, Touches;
    var c := EmitExpr(s, stmt.condition);
    EmitExprGrows(s, stmt.condition);
    var u := OpenIf(c.s, c.a);
    OpenIfFrame(c.s, c.a);
    OpenIfCells(c.s, c.a);
    TouchesGrows(c.s, u, {|c.s.blocks|, |c.s.blocks| + 1});
    EmitFromFrame(u, stmt.thenBlock, 0, returnsValue, pops);
    FromGrows(u, stmt.thenBlock, 0, returnsValue, pops);
    var y := EmitFrom(u, stmt.thenBlock, 0, returnsValue, pops);
    FlowCells(u, y.s, y.terminated);
    var z := IfElse(c.s, y.s, pops);
    IfElseAt(c.s, c.a, y.s, y.terminated, z);
    GrowsBlocks(y.s, z);
    FromGrows(z, stmt.elseBlock, 0, returnsValue, pops);
    var n := EmitFrom(z, stmt.elseBlock, 0, returnsValue, pops);
    GrowsJoin(n.s, LeaveBlock(c.s, n.s, pops), ExitOf(y), ExitOf(n));
  }

  lemma GrowsBlocks(s: State, t: State)
    requires t.blocks == s.blocks
    ensures Grows(s, t) && Cells(s) == Cells(t)
  {
  }

  lemma GrowsJoin(s: State, t: State, a: Option<nat>, b: Option<nat>)
    requires t.blocks == s.blocks
    ensures JoinIf(t, a, b).Lowered? && Grows(s, JoinIf(t, a, b).s)
  {
    hide JoinArms;
    JoinIfIsJoinArms(t, a, b);
    GrowsJoinArms(t, [a, b]);
  }

  lemma {:induction false} GrowsJoinExits(s: State, exits: seq<Option<nat>>, i: nat, merge: nat)
    ensures Grows(s, JoinExits(s, exits, i, merge))
    decreases |exits| - i
  {
    if i < |exits| {
      var t := if exits[i].Some? then End(Position(s, exits[i].value), Br(merge)) else s;
      GrowsJoinExits(t, exits, i + 1, merge);
      GrowsThrough(s, t, JoinExits(t, exits, i + 1, merge));
    }
  }

  lemma GrowsJoinArms(s: State, exits: seq<Option<nat>>)
    ensures JoinArms(s, exits).Lowered? && Grows(s, JoinArms(s, exits).s)
  {
    GrowsJoinExits(NewBlock(s), exits, 0, |s.blocks|);
    GrowsThrough(s, NewBlock(s), JoinExits(NewBlock(s), exits, 0, |s.blocks|));
  }

  lemma {:induction false} JoinExitsSame(s: State, s': State, exits: seq<Option<nat>>, i: nat, merge: nat)
    requires Same(s, s')
    ensures Same(JoinExits(s, exits, i, merge), JoinExits(s', exits, i, merge))
    decreases |exits| - i
  {
    if i < |exits| {
      JoinExitsSame(if exits[i].Some? then End(Position(s, exits[i].value), Br(merge)) else s,
                    if exits[i].Some? then End(Position(s', exits[i].value), Br(merge)) else s', exits, i + 1, merge);
    }
  }

  lemma JoinArmsSame(s: State, s': State, exits: seq<Option<nat>>)
    requires Same(s, s')
    ensures var r, r' := JoinArms(s, exits), JoinArms(s', exits);
            && r.Lowered? && r'.Lowered? && r.terminated == r'.terminated && Same(r.s, r'.s)
            && r.s.locals == s.locals && r'.s.locals == s'.locals
  {
    hide JoinExits;
    JoinExitsSame(NewBlock(s), NewBlock(s'), exits, 0, |s.blocks|);
    JoinExitsLocals(NewBlock(s), exits, 0, |s.blocks|);
    JoinExitsLocals(NewBlock(s'), exits, 0, |s.blocks|);
  }

  lemma OpenIfSame(s: State, s': State, a: Operand)
    requires Same(s, s')
    ensures Same(OpenIf(s, a), OpenIf(s', a))
  {
  }

  lemma {:induction false} IfRelates(s: State, s': State, stmt: Stmt, returnsValue: bool, stale: set<string>)
    requires Paired(s, s', stale) && stmt.If?
    ensures LoweredRelate(EmitStatement(s, stmt, returnsValue, true), EmitStatement(s', stmt, returnsValue, false),
                          AfterStatement(stmt, stale))
    decreases stmt, 2
  {
    hide EmitExpr, EmitFrom, Agree, Diverged, Grows, Same, LocalsOk, JoinIf, OpenIf, AfterBlock, Open, EmitStatement;
    PairedParts(s, s', stale);
    var r, r' := EmitStatement(s, stmt, returnsValue, true), EmitStatement(s', stmt, returnsValue, false);
    if r'.Lowered? {
      IfPath(s', stmt, returnsValue, false);
      var c, c' := EmitExpr(s, stmt.condition), EmitExpr(s', stmt.condition);
      ExprRelates(s, s', stmt.condition, stale);
      if Reads(stmt.condition) !! stale {
        IfBlocksRelate(s, s', stmt, returnsValue, stale);
      } else if r.Lowered? {
        IfPath(s, stmt, returnsValue, true);
        IfDiverged(s, s', stmt, returnsValue, c.s, c'.s);
      }
    }
  }

  /** A difference at any point of a conditional remains at its end. */
  lemma IfDiverged(s: State, s': State, stmt: Stmt, returnsValue: bool, t: State, t': State)
    requires stmt.If? && Open(s) && Open(s') && Diverged(t, t')
    requires EmitStatement(s, stmt, returnsValue, true).Lowered? && EmitStatement(s', stmt, returnsValue, false).Lowered?
    requires OnIfPath(s, stmt, returnsValue, true, t) && OnIfPath(s', stmt, returnsValue, false, t')
    ensures Diverged(EmitStatement(s, stmt, returnsValue, true).s, EmitStatement(s', stmt, returnsValue, false).s)
  {
    hide EmitStatement, Diverged, Grows, OnIfPath;
    IfPathGrows(s, stmt, returnsValue, true, t);
    IfPathGrows(s', stmt, returnsValue, false, t');
    DivergedLater(t, t', EmitStatement(s, stmt, returnsValue, true).s, EmitStatement(s', stmt, returnsValue, false).s);
  }

  ghost predicate OnIfPath(s: State, stmt: Stmt, returnsValue: bool, pops: bool, t: State)
    requires stmt.If?
  {
    var c := EmitExpr(s, stmt.condition);
    c.Emitted? &&
    var y := EmitFrom(OpenIf(c.s, c.a), stmt.thenBlock, 0, returnsValue, pops);
    y.Lowered? &&
    var n := EmitFrom(IfElse(c.s, y.s, pops), stmt.elseBlock, 0, returnsValue, pops);
    n.Lowered? && t in {c.s, y.s, n.s}
  }

  lemma IfPathGrows(s: State, stmt: Stmt, returnsValue: bool, pops: bool, t: State)
    requires stmt.If? && Open(s) && EmitStatement(s, stmt, returnsValue, pops).Lowered?
    requires OnIfPath(s, stmt, returnsValue, pops, t)
    ensures Grows(t, EmitStatement(s, stmt, returnsValue, pops).s)
  {
    hide EmitExpr, EmitFrom, JoinIf, OpenIf, Grows, EmitStatement, IfElse, Open;
    IfPath(s, stmt, returnsValue, pops);
    var c := EmitExpr(s, stmt.condition);
    var u := OpenIf(c.s, c.a);
    var y := EmitFrom(u, stmt.thenBlock, 0, returnsValue, pops);
    var z := IfElse(c.s, y.s, pops);
    var n := EmitFrom(z, stmt.elseBlock, 0, returnsValue, pops);
    var j := EmitStatement(s, stmt, returnsValue, pops);
    GrowsThrough(z, n.s, j.s);
    GrowsThrough(y.s, z, j.s);
    GrowsThrough(u, y.s, j.s);
    GrowsThrough(c.s, u, j.s);
  }

  /** The first branch of a conditional whose condition is the same. */
  lemma {:induction false} ThenRelates(s: State, s': State, stmt: Stmt, returnsValue: bool, stale: set<string>)
    requires Paired(s, s', stale) && stmt.If? && Reads(stmt.condition) !! stale
    requires EmitStatement(s', stmt, returnsValue, false).Lowered?
    ensures var c, c' := EmitExpr(s, stmt.condition), EmitExpr(s', stmt.condition);
            && c.Emitted? && c'.Emitted? && c'.a == c.a && Same(c.s, c'.s) && LocalsOk(c.s) && c.s.locals == s.locals &&
            var y := EmitFrom(OpenIf(c.s, c.a), stmt.thenBlock, 0, returnsValue, true);
            var y' := EmitFrom(OpenIf(c'.s, c.a), stmt.thenBlock, 0, returnsValue, false);
            && y'.Lowered? && (y.Lowered? ==> Cells(c.s) <= Cells(y.s))
            && match AfterBlock(stmt.thenBlock, stale)
               case Some(next) =>
                 y.Lowered? && y.terminated == y'.terminated && Same(y.s, y'.s) && Agree(s.locals, y'.s.locals, next)
               case None => y.Lowered? ==> Diverged(y.s, y'.s)
    decreases stmt, 0
  {
    hide EmitExpr, EmitFrom, Agree, Diverged, Grows, Same, LocalsOk, JoinIf, OpenIf, AfterBlock, Open, EmitStatement, IfElse, Cells;
    PairedParts(s, s', stale);
    IfPath(s', stmt, returnsValue, false);
    ExprRelates(s, s', stmt.condition, stale);
    EmitExprGrows(s, stmt.condition);
    var c, c' := EmitExpr(s, stmt.condition), EmitExpr(s', stmt.condition);
    var u, u' := OpenIf(c.s, c.a), OpenIf(c'.s, c.a);
    OpenIfSame(c.s, c'.s, c.a);
    OpenIfFrame(c.s, c.a);
    OpenIfCells(c.s, c.a);
    LocalsOkMore(s, c.s);
    LocalsOkMore(s, u);
    BlockRelates(s.locals, u, u', stmt.thenBlock, returnsValue, stale);
    if EmitFrom(u, stmt.thenBlock, 0, returnsValue, true).Lowered? {
      FromExtends(u, stmt.thenBlock, 0, returnsValue, true);
    }
  }

  /** Both branches of a conditional whose condition is the same. */
  lemma {:induction false} IfBlocksRelate(s: State, s': State, stmt: Stmt, returnsValue: bool, stale: set<string>)
    requires Paired(s, s', stale) && stmt.If? && Reads(stmt.condition) !! stale
    requires EmitStatement(s', stmt, returnsValue, false).Lowered?
    ensures LoweredRelate(EmitStatement(s, stmt, returnsValue, true), EmitStatement(s', stmt, returnsValue, false),
                          AfterStatement(stmt, stale))
    decreases stmt, 1
  {
    hide EmitExpr, EmitFrom, Agree, Diverged, Grows, Same, LocalsOk, JoinIf, OpenIf, AfterBlock, Open, IfElse, Cells;
    PairedParts(s, s', stale);
    IfPath(s', stmt, returnsValue, false);
    ThenRelates(s, s', stmt, returnsValue, stale);
    var c, c' := EmitExpr(s, stmt.condition), EmitExpr(s', stmt.condition);
    var y := EmitFrom(OpenIf(c.s, c.a), stmt.thenBlock, 0, returnsValue, true);
    var y' := EmitFrom(OpenIf(c'.s, c.a), stmt.thenBlock, 0, returnsValue, false);
    var r, r' := EmitStatement(s, stmt, returnsValue, true), EmitStatement(s', stmt, returnsValue, false);
    if r.Lowered? {
      IfPath(s, stmt, returnsValue, true);
    }
    if AfterBlock(stmt.thenBlock, stale).None? {
      if r.Lowered? {
        IfDiverged(s, s', stmt, returnsValue, y.s, y'.s);
      }
    } else {
      ElseRelates(s, s', c.s, c'.s, y, y', stmt, returnsValue, AfterBlock(stmt.thenBlock, stale).value);
      var n := EmitFrom(IfElse(c.s, y.s, true), stmt.elseBlock, 0, returnsValue, true);
      var n' := EmitFrom(IfElse(c'.s, y'.s, false), stmt.elseBlock, 0, returnsValue, false);
      if AfterStatement(stmt, stale).None? {
        if r.Lowered? {
          IfDiverged(s, s', stmt, returnsValue, n.s, n'.s);
        }
      } else {
        JoinIfSame(KeepLocals(c.s, n.s), n'.s, ExitOf(y), ExitOf(n), n.s);
        RegistersSame(y.s, y'.s);
        RegistersSame(n.s, n'.s);
        IfIs(s, stmt, returnsValue);
      }
    }
  }

  lemma IfIs(s: State, stmt: Stmt, returnsValue: bool)
    requires Open(s) && stmt.If? && EmitExpr(s, stmt.condition).Emitted?
    requires var c := EmitExpr(s, stmt.condition);
             var y := EmitFrom(OpenIf(c.s, c.a), stmt.thenBlock, 0, returnsValue, true);
             y.Lowered? && EmitFrom(IfElse(c.s, y.s, true), stmt.elseBlock, 0, returnsValue, true).Lowered?
    ensures var c := EmitExpr(s, stmt.condition);
            var y := EmitFrom(OpenIf(c.s, c.a), stmt.thenBlock, 0, returnsValue, true);
            var n := EmitFrom(IfElse(c.s, y.s, true), stmt.elseBlock, 0, returnsValue, true);
            EmitStatement(s, stmt, returnsValue, true) == JoinIf(KeepLocals(c.s, n.s), ExitOf(y), ExitOf(n))
  {
    hide EmitExpr, EmitFrom, JoinIf, OpenIf;
  }

  lemma JoinIfSame(s: State, s': State, a: Option<nat>, b: Option<nat>, kept: State)
    requires Same(kept, s') && s == kept.(locals := s.locals)
    ensures var r, r' := JoinIf(s, a, b), JoinIf(s', a, b);
            && r.Lowered? && r'.Lowered? && r.terminated == r'.terminated && Same(r.s, r'.s)
            && r.s.locals == s.locals && r'.s.locals == s'.locals
  {
    hide JoinArms;
    JoinIfIsJoinArms(s, a, b);
    JoinIfIsJoinArms(s', a, b);
    JoinArmsSame(s, s', [a, b]);
  }

  lemma {:induction false} ElseRelates(
    s: State, s': State, c: State, c': State, y: Lowered, y': Lowered, stmt: Stmt, returnsValue: bool, stale: set<string>)
    requires stmt.If? && y.Lowered? && y'.Lowered? && Same(y.s, y'.s) && Same(c, c') && LocalsOk(c)
    requires Agree(c.locals, y'.s.locals, stale) && Cells(c) <= Cells(y.s)
    requires Open(IfElse(c', y'.s, false)) && IfElse(c', y'.s, false).at == |c'.blocks| + 1
    requires IfElse(c', y'.s, false).locals == y'.s.locals
    ensures var z, z' := IfElse(c, y.s, true), IfElse(c', y'.s, false);
            var n := EmitFrom(z, stmt.elseBlock, 0, returnsValue, true);
            var n' := EmitFrom(z', stmt.elseBlock, 0, returnsValue, false);
            n'.Lowered? ==>
              match AfterBlock(stmt.elseBlock, stale)
              case Some(next) =>
                n.Lowered? && n.terminated == n'.terminated && Same(n.s, n'.s) && Agree(c.locals, n'.s.locals, next)
              case None => n.Lowered? ==> Diverged(n.s, n'.s)
    decreases stmt, 0
  {
    hide EmitFrom, Agree, Diverged, LocalsOk, AfterBlock;
    var z, z' := IfElse(c, y.s, true), IfElse(c', y'.s, false);
    LocalsOkMore(c, z);
    BlockRelates(c.locals, z, z', stmt.elseBlock, returnsValue, stale);
  }

  // ----- loops, related -----

  lemma OpenWhileSame(s: State, s': State)
    requires Same(s, s')
    ensures Same(OpenWhile(s), OpenWhile(s'))
  {
  }

  lemma LoopBodySame(s: State, s': State, t: State, t': State, a: Operand)
    requires Same(s, s') && Same(t, t')
    ensures Same(LoopBody(s, t, a), LoopBody(s', t', a))
    ensures LoopBody(s, t, a).locals == t.locals && LoopBody(s', t', a).locals == t'.locals
  {
  }

  lemma CloseWhileSame(s: State, s': State, b: Lowered, b': Lowered)
    requires b.Lowered? && b'.Lowered? && b.terminated == b'.terminated && Same(s, s') && Same(b.s, b'.s)
    ensures var r, r' := CloseWhile(s, b), CloseWhile(s', b');
            && r.Lowered? && r'.Lowered? && r.terminated == r'.terminated && Same(r.s, r'.s)
            && r.s.locals == b.s.locals && r'.s.locals == b'.s.locals
  {
  }

  /** The states a loop passes through. */
  lemma WhilePath(s: State, stmt: Stmt, returnsValue: bool, pops: bool)
    requires stmt.While? && Open(s) && EmitStatement(s, stmt, returnsValue, pops).Lowered?
    ensures var head := OpenWhile(s);
            var c := EmitExpr(head, stmt.condition);
            && Open(head) && head.locals == s.locals && Cells(s) <= Cells(head)
            && c.Emitted? && Open(c.s) && c.s.locals == s.locals && Cells(head) <= Cells(c.s) &&
            var entry := LoopBody(s, c.s, c.a);
            var b := EmitFrom(entry, stmt.body, 0, returnsValue, pops);
            && Open(entry) && Cells(c.s) <= Cells(entry) && b.Lowered?
            && EmitStatement(s, stmt, returnsValue, pops) == CloseWhile(s, Lowered(LeaveBlock(s, b.s, pops), b.terminated))
            && Grows(c.s, EmitStatement(s, stmt, returnsValue, pops).s)
            && Grows(b.s, EmitStatement(s, stmt, returnsValue, pops).s)
  {
    hide EmitExpr, EmitFrom, CloseWhile, OpenWhile, Grows, Touches, LoopBody, Cells;
    var head := OpenWhile(s);
    OpenWhileFrame(s);
    OpenWhileFlows(s);
    EmitExprGrows(head, stmt.condition);
    EmitExprFrame(head, stmt.condition);
    var c := EmitExpr(head, stmt.condition);
    WhileBodyFrame(s, c.s, c.a);
    var entry := LoopBody(s, c.s, c.a);
    LoopBodyIs(s, c.s, c.a);
    FromGrows(entry, stmt.body, 0, returnsValue, pops);
    var b := EmitFrom(entry, stmt.body, 0, returnsValue, pops);
    GrowsClose(s, Lowered(LeaveBlock(s, b.s, pops), b.terminated), b.s);
    GrowsThrough(entry, b.s, EmitStatement(s, stmt, returnsValue, pops).s);
    GrowsThrough(c.s, entry, EmitStatement(s, stmt, returnsValue, pops).s);
  }

  lemma LoopBodyIs(s: State, t: State, a: Operand)
    ensures LoopBody(s, t, a) == Position(End(t, CondBr(a, |s.blocks| + 1, |s.blocks| + 2)), |s.blocks| + 1)
    ensures Grows(t, LoopBody(s, t, a)) && Cells(LoopBody(s, t, a)) == Cells(t)
  {
  }

  lemma GrowsClose(s: State, b: Lowered, t: State)
    requires b.Lowered? && b.s.blocks == t.blocks
    ensures CloseWhile(s, b).Lowered? && Grows(t, CloseWhile(s, b).s)
  {
  }

  lemma {:induction false} WhileRelates(s: State, s': State, stmt: Stmt, returnsValue: bool, stale: set<string>)
    requires Paired(s, s', stale) && stmt.While?
    ensures LoweredRelate(EmitStatement(s, stmt, returnsValue, true), EmitStatement(s', stmt, returnsValue, false),
                          AfterStatement(stmt, stale))
    decreases stmt, 2
  {
    hide EmitExpr, EmitFrom, Agree, Diverged, Grows, Same, LocalsOk, OpenWhile, CloseWhile, LoopBody, AfterBlock, Open, Cells;
    PairedParts(s, s', stale);
    var r, r' := EmitStatement(s, stmt, returnsValue, true), EmitStatement(s', stmt, returnsValue, false);
    if r'.Lowered? {
      WhilePath(s', stmt, returnsValue, false);
      if r.Lowered? {
        WhilePath(s, stmt, returnsValue, true);
      }
      OpenWhileSame(s, s');
      OpenWhileFrame(s);
      OpenWhileFlows(s);
      var head, head' := OpenWhile(s), OpenWhile(s');
      var c, c' := EmitExpr(head, stmt.condition), EmitExpr(head', stmt.condition);
      ExprRelates(head, head', stmt.condition, stale);
      EmitExprGrows(head, stmt.condition);
      if Reads(stmt.condition) !! stale {
        LocalsOkMore(s, c.s);
        LoopRelates(s, s', c.s, c'.s, c.a, stmt, returnsValue, stale);
        WhileIs(s, stmt, returnsValue);
      } else if r.Lowered? {
        DivergedLater(c.s, c'.s, r.s, r'.s);
      }
    }
  }

  lemma WhileIs(s: State, stmt: Stmt, returnsValue: bool)
    requires Open(s) && stmt.While? && EmitExpr(OpenWhile(s), stmt.condition).Emitted?
    ensures var c := EmitExpr(OpenWhile(s), stmt.condition);
            var b := EmitFrom(LoopBody(s, c.s, c.a), stmt.body, 0, returnsValue, true);
            EmitStatement(s, stmt, returnsValue, true) ==
              if b.Lowered? then CloseWhile(s, Lowered(KeepLocals(s, b.s), b.terminated)) else Rejected
  {
    hide EmitExpr, EmitFrom, OpenWhile, CloseWhile;
  }

  lemma {:induction false} LoopRelates(
    s: State, s': State, c: State, c': State, a: Operand, stmt: Stmt, returnsValue: bool, stale: set<string>)
    requires stmt.While? && Same(s, s') && Same(c, c') && LocalsOk(c) && c.locals == s.locals && c'.locals == s'.locals
    requires Agree(s.locals, s'.locals, stale) && Open(LoopBody(s', c', a))
    ensures var b := EmitFrom(LoopBody(s, c, a), stmt.body, 0, returnsValue, true);
            var b' := EmitFrom(LoopBody(s', c', a), stmt.body, 0, returnsValue, false);
            b'.Lowered? ==>
              var r' := CloseWhile(s', b');
              match AfterBlock(stmt.body, stale)
              case Some(next) =>
                b.Lowered? &&
                var r := CloseWhile(s, Lowered(KeepLocals(s, b.s), b.terminated));
                r.Lowered? && r'.Lowered? && r.terminated == r'.terminated && Same(r.s, r'.s) && Agree(r.s.locals, r'.s.locals, next)
              case None => 
                b.Lowered? ==>
                  var r := CloseWhile(s, Lowered(KeepLocals(s, b.s), b.terminated));
                  r.Lowered? && r'.Lowered? && Diverged(r.s, r'.s)
    decreases stmt, 0
  {
    hide EmitFrom, Agree, Diverged, LocalsOk, AfterBlock, LoopBody, CloseWhile, Same, Grows;
    var entry, entry' := LoopBody(s, c, a), LoopBody(s', c', a);
    LoopBodySame(s, s', c, c', a);
    LoopBodyIs(s, c, a);
    LocalsOkMore(c, entry);
    RegistersSame(entry, entry');
    BlockRelates(s.locals, entry, entry', stmt.body, returnsValue, stale);
    var b, b' := EmitFrom(entry, stmt.body, 0, returnsValue, true), EmitFrom(entry', stmt.body, 0, returnsValue, false);
    if b'.Lowered? && b.Lowered? {
      var kept := Lowered(KeepLocals(s, b.s), b.terminated);
      GrowsClose(s, kept, b.s);
      GrowsClose(s', b', b'.s);
      if AfterBlock(stmt.body, stale).Some? {
        SameKept(s, b.s, b'.s);
        CloseWhileSame(s, s', kept, b');
      } else {
        DivergedLater(b.s, b'.s, CloseWhile(s, kept).s, CloseWhile(s', b').s);
      }
    }
  }

  lemma SameKept(before: State, s: State, s': State)
    requires Same(s, s')
    ensures Same(KeepLocals(before, s), s')
  {
  }

  // ----- arms, related -----

  /** The same arm from both tables; it restores its table in both. */
  lemma {:induction false} ArmRelates(
    s: State, s': State, c: Case, storage: nat, returnsValue: bool, stale: set<string>)
    requires Paired(s, s', stale)
    ensures var r, r' := EmitArm(s, c, storage, returnsValue, true), EmitArm(s', c, storage, returnsValue, false);
            r'.Lowered? ==>
              if CaseClean(c, stale) then r.Lowered? && r.terminated == r'.terminated && Same(r.s, r'.s)
              else r.Lowered? ==> Diverged(r.s, r'.s)
    decreases c
  {
    hide EmitBind, EmitFrom, Agree, Diverged, LocalsOk, AfterFrom, PatternNames, DiffersAt;
    BindRelates(s, s', c.pattern, Place(storage, []), stale);
    var u, u' := EmitBind(s, c.pattern, Place(storage, [])), EmitBind(s', c.pattern, Place(storage, []));
    FromRelates(u, u', c.body, 0, returnsValue, stale - PatternNames(c.pattern));
    var b, b' := EmitFrom(u, c.body, 0, returnsValue, true), EmitFrom(u', c.body, 0, returnsValue, false);
    if b.Lowered? && b'.Lowered? && Diverged(b.s, b'.s) {
      DivergedBlocks(b.s, b'.s, KeepLocals(s, b.s), KeepLocals(s', b'.s));
    }
  }

  lemma DivergedBlocks(s: State, s': State, t: State, t': State)
    requires Diverged(s, s') && t.blocks == s.blocks && t'.blocks == s'.blocks
    ensures Diverged(t, t')
  {
    hide DiffersAt;
  }

  lemma {:induction false} ArmsGrow(
    t: State, cases: seq<Case>, i: nat, base: nat, storage: nat, returnsValue: bool, pops: bool)
    requires i <= |cases| && Waiting(t, base + i, |cases| - i)
    ensures var r := EmitArms(t, cases, i, base, storage, returnsValue, pops); r.Arms? ==> Grows(t, r.s)
    decreases |cases| - i
  {
    hide EmitArm, Touches, Waiting, Grows;
    if i == |cases| {
      GrowsBlocks(t, t);
    } else {
      var t0 := Position(t, base + i);
      var a := EmitArm(t0, cases[i], storage, returnsValue, pops);
      if a.Lowered? {
        ArmStates(t, cases, i, base, storage, returnsValue, pops);
        ArmsGrow(a.s, cases, i + 1, base, storage, returnsValue, pops);
        var rest := EmitArms(a.s, cases, i + 1, base, storage, returnsValue, pops);
        if rest.Arms? {
          TouchesGrows(t0, a.s, Exit(a.s, a.terminated));
          GrowsThrough(t0, a.s, rest.s);
          GrowsBlocks(t, t0);
          GrowsThrough(t, t0, rest.s);
        }
      }
    }
  }

  predicate CasesClean(cases: seq<Case>, i: nat, stale: set<string>) {
    forall j :: i <= j < |cases| ==> CaseClean(cases[j], stale)
  }

  /** All arms from `i` on, from both tables. */
  ghost predicate ArmsRelated(r: Arms, r': Arms, clean: bool) {
    r'.Arms? ==>
      if clean then r.Arms? && r.exits == r'.exits && Same(r.s, r'.s)
      else r.Arms? ==> Diverged(r.s, r'.s)
  }

  lemma {:induction false} ArmsRelate(
    t: State, t': State, cases: seq<Case>, i: nat, base: nat, storage: nat, returnsValue: bool, stale: set<string>)
    requires i <= |cases| && Waiting(t, base + i, |cases| - i)
    requires Same(t, t') && LocalsOk(t) && Agree(t.locals, t'.locals, stale)
    ensures ArmsRelated(EmitArms(t, cases, i, base, storage, returnsValue, true),
                        EmitArms(t', cases, i, base, storage, returnsValue, false), CasesClean(cases, i, stale))
    decreases cases, |cases| - i
  {
    hide EmitArm, Touches, Waiting, Grows, Agree, Diverged, LocalsOk, CaseClean;
    if i < |cases| {
      var t0, t0' := Position(t, base + i), Position(t', base + i);
      var a, a' := EmitArm(t0, cases[i], storage, returnsValue, true), EmitArm(t0', cases[i], storage, returnsValue, false);
      PositionPaired(t, t', base + i, |cases| - i, stale);
      ArmRelates(t0, t0', cases[i], storage, returnsValue, stale);
      if a'.Lowered? && a.Lowered? {
        ArmStates(t, cases, i, base, storage, returnsValue, true);
        WaitingSame(t, t', base + i, |cases| - i);
        ArmStates(t', cases, i, base, storage, returnsValue, false);
        var rest := EmitArms(a.s, cases, i + 1, base, storage, returnsValue, true);
        var rest' := EmitArms(a'.s, cases, i + 1, base, storage, returnsValue, false);
        if CaseClean(cases[i], stale) {
          ArmCells(t0, a.s, Exit(a.s, a.terminated));
          LocalsOkMore(t, a.s);
          ArmsRelate(a.s, a'.s, cases, i + 1, base, storage, returnsValue, stale);
        } else {
          ArmsGrow(a.s, cases, i + 1, base, storage, returnsValue, true);
          ArmsGrow(a'.s, cases, i + 1, base, storage, returnsValue, false);
          if rest.Arms? && rest'.Arms? {
            DivergedLater(a.s, a'.s, rest.s, rest'.s);
          }
        }
      }
    }
  }

  lemma WaitingSame(t: State, t': State, lo: nat, n: nat)
    requires Waiting(t, lo, n) && Same(t, t')
    ensures Waiting(t', lo, n)
  {
  }

  lemma PositionPaired(t: State, t': State, b: nat, n: nat, stale: set<string>)
    requires Waiting(t, b, n) && n > 0 && Same(t, t') && LocalsOk(t) && Agree(t.locals, t'.locals, stale)
    ensures Paired(Position(t, b), Position(t', b), stale)
  {
    hide Agree;
    LocalsOkMore(t, Position(t, b));
  }

  /** The states a match passes through. */
  lemma MatchPath(s: State, stmt: Stmt, returnsValue: bool, pops: bool)
    requires stmt.Match? && Open(s) && EmitStatement(s, stmt, returnsValue, pops).Lowered?
    ensures var n := |stmt.cases|;
            var c := EmitExpr(s, stmt.scrutinee);
            && stmt.cases != [] && Analyzed(stmt.matched, stmt.cases)
            && c.Emitted? && Open(c.s) && c.s.locals == s.locals && Cells(s) <= Cells(c.s)
            && Grows(c.s, EmitStatement(s, stmt, returnsValue, pops).s) &&
            var u, base := OpenMatch(c.s, stmt.matched, c.a, n), |c.s.blocks|;
            var d := EmitDispatch(u, stmt.matched, stmt.cases, 0, base, Cells(c.s), MatchTag(c.s, stmt.matched));
            && d.Some? &&
            var r := EmitArms(d.value, stmt.cases, 0, base, Cells(c.s), returnsValue, pops);
            r.Arms? && EmitStatement(s, stmt, returnsValue, pops) == JoinArms(r.s, r.exits)
  {
    hide EmitExpr, EmitDispatch, EmitArms, JoinArms, OpenMatch, Touches, Grows, Analyzed;
    EmitExprGrows(s, stmt.scrutinee);
    var c := EmitExpr(s, stmt.scrutinee);
    MatchFrame(c.s, stmt.matched, c.a, stmt.cases, returnsValue, pops);
    var r := EmitStatement(s, stmt, returnsValue, pops);
    TouchesGrows(c.s, r.s, Exit(r.s, r.terminated));
  }

  /** After the scrutinee: dispatch is the same and the arm blocks wait. */
  lemma DispatchPath(s: State, s': State, t: Type, a: Operand, cases: seq<Case>)
    requires Same(s, s') && Open(s)
    ensures var u, u' := OpenMatch(s, t, a, |cases|), OpenMatch(s', t, a, |cases|);
            var d := EmitDispatch(u, t, cases, 0, |s.blocks|, Cells(s), MatchTag(s, t));
            var d' := EmitDispatch(u', t, cases, 0, |s.blocks|, Cells(s), MatchTag(s, t));
            && MatchTag(s', t) == MatchTag(s, t) && (d.Some? <==> d'.Some?)
            && (d.Some? ==>
                  && Same(d.value, d'.value) && Waiting(d.value, |s.blocks|, |cases|)
                  && d.value.locals == s.locals && d'.value.locals == s'.locals && Cells(s) <= Cells(d.value))
  {
    hide EmitDispatch, OpenMatch, Touches, Waiting;
    var n := |cases|;
    var u, u', base := OpenMatch(s, t, a, n), OpenMatch(s', t, a, n), |s.blocks|;
    OpenMatchSame(s, s', t, a, n);
    OpenMatchFrame(s, t, a, n);
    OpenMatchFrame(s', t, a, n);
    OpenMember(s, u, {s.at} + Ids(base, n));
    DispatchSame(u, u', t, cases, 0, base, Cells(s), MatchTag(s, t));
    EmitDispatchFrame(u, t, cases, 0, base, Cells(s), MatchTag(s, t));
    EmitDispatchFrame(u', t, cases, 0, base, Cells(s), MatchTag(s, t));
    ArmsWait(s, t, a, n);
    var d := EmitDispatch(u, t, cases, 0, base, Cells(s), MatchTag(s, t));
    if d.Some? {
      WaitingAfter(u, d.value, {}, base, n) by { AtBefore(s, u, base, n); }
      ArmCells(u, d.value, {});
    }
  }

  lemma AtBefore(s: State, u: State, base: nat, n: nat)
    requires u.at == s.at && base == |s.blocks|
    ensures !(base <= u.at < base + n)
  {
  }

  lemma {:induction false} MatchRelates(s: State, s': State, stmt: Stmt, returnsValue: bool, stale: set<string>)
    requires Paired(s, s', stale) && stmt.Match?
    ensures LoweredRelate(EmitStatement(s, stmt, returnsValue, true), EmitStatement(s', stmt, returnsValue, false),
                          AfterStatement(stmt, stale))
    decreases stmt, 2
  {
    hide EmitExpr, EmitDispatch, EmitArms, JoinArms, OpenMatch, Agree, Diverged, Grows, Same, LocalsOk, Open, Cells, CaseClean, Analyzed;
    PairedParts(s, s', stale);
    var r, r' := EmitStatement(s, stmt, returnsValue, true), EmitStatement(s', stmt, returnsValue, false);
    if r'.Lowered? {
      MatchPath(s', stmt, returnsValue, false);
      if r.Lowered? {
        MatchPath(s, stmt, returnsValue, true);
      }
      var c, c' := EmitExpr(s, stmt.scrutinee), EmitExpr(s', stmt.scrutinee);
      ExprRelates(s, s', stmt.scrutinee, stale);
      EmitExprGrows(s, stmt.scrutinee);
      if Reads(stmt.scrutinee) !! stale {
        LocalsOkMore(s, c.s);
        RegistersSame(c.s, c'.s);
        CasesRelate(c.s, c'.s, c.a, stmt, returnsValue, stale);
        MatchIs(s, stmt, returnsValue);
        assert CasesClean(stmt.cases, 0, stale) <==> AfterStatement(stmt, stale).Some?;
      } else if r.Lowered? {
        DivergedLater(c.s, c'.s, r.s, r'.s);
      }
    }
  }

  lemma MatchIs(s: State, stmt: Stmt, returnsValue: bool)
    requires Open(s) && stmt.Match? && stmt.cases != [] && Analyzed(stmt.matched, stmt.cases)
    requires EmitExpr(s, stmt.scrutinee).Emitted?
    ensures var c := EmitExpr(s, stmt.scrutinee);
            var d := EmitDispatch(OpenMatch(c.s, stmt.matched, c.a, |stmt.cases|), stmt.matched, stmt.cases, 0, |c.s.blocks|,
                                  Cells(c.s), MatchTag(c.s, stmt.matched));
            EmitStatement(s, stmt, returnsValue, true) ==
              if d.None? then Rejected else
              var r := EmitArms(d.value, stmt.cases, 0, |c.s.blocks|, Cells(c.s), returnsValue, true);
              if r.Arms? then JoinArms(r.s, r.exits) else Rejected
  {
    hide EmitExpr, EmitDispatch, EmitArms, JoinArms, OpenMatch;
  }

  lemma {:induction false} CasesRelate(
    s: State, s': State, a: Operand, stmt: Stmt, returnsValue: bool, stale: set<string>)
    requires stmt.Match? && Same(s, s') && Open(s) && LocalsOk(s) && Agree(s.locals, s'.locals, stale)
    requires var d' := EmitDispatch(OpenMatch(s', stmt.matched, a, |stmt.cases|), stmt.matched, stmt.cases, 0,
                                    |s'.blocks|, Cells(s'), MatchTag(s', stmt.matched));
             d'.Some? && EmitArms(d'.value, stmt.cases, 0, |s'.blocks|, Cells(s'), returnsValue, false).Arms?
    ensures var d := EmitDispatch(OpenMatch(s, stmt.matched, a, |stmt.cases|), stmt.matched, stmt.cases, 0,
                                  |s.blocks|, Cells(s), MatchTag(s, stmt.matched));
            var d' := EmitDispatch(OpenMatch(s', stmt.matched, a, |stmt.cases|), stmt.matched, stmt.cases, 0,
                                   |s'.blocks|, Cells(s'), MatchTag(s', stmt.matched));
            d.Some? &&
            var r := EmitArms(d.value, stmt.cases, 0, |s.blocks|, Cells(s), returnsValue, true);
            var r' := EmitArms(d'.value, stmt.cases, 0, |s'.blocks|, Cells(s'), returnsValue, false);
            if CasesClean(stmt.cases, 0, stale) then
              r.Arms? &&
              var j, j' := JoinArms(r.s, r.exits), JoinArms(r'.s, r'.exits);
              && j.Lowered? && j'.Lowered? && j.terminated == j'.terminated && Same(j.s, j'.s)
              && Agree(j.s.locals, j'.s.locals, stale)
            else
              r.Arms? ==>
                var j, j' := JoinArms(r.s, r.exits), JoinArms(r'.s, r'.exits);
                j.Lowered? && j'.Lowered? && Diverged(j.s, j'.s)
    decreases stmt, 0
  {
    hide EmitDispatch, EmitArms, JoinArms, OpenMatch, Agree, Diverged, Grows, Same, LocalsOk, Open, Cells, CaseClean, Waiting;
    var cases, t, base := stmt.cases, stmt.matched, |s.blocks|;
    RegistersSame(s, s');
    DispatchPath(s, s', t, a, cases);
    var d := EmitDispatch(OpenMatch(s, t, a, |cases|), t, cases, 0, base, Cells(s), MatchTag(s, t)).value;
    var d' := EmitDispatch(OpenMatch(s', t, a, |cases|), t, cases, 0, base, Cells(s), MatchTag(s, t)).value;
    LocalsOkMore(s, d);
    ArmsRelate(d, d', cases, 0, base, Cells(s), returnsValue, stale);
    EmitArmsLocals(d, cases, 0, base, Cells(s), returnsValue, true);
    EmitArmsLocals(d', cases, 0, base, Cells(s), returnsValue, false);
    var r := EmitArms(d, cases, 0, base, Cells(s), returnsValue, true);
    var r' := EmitArms(d', cases, 0, base, Cells(s), returnsValue, false);
    if r.Arms? {
      GrowsJoinArms(r.s, r.exits);
      GrowsJoinArms(r'.s, r'.exits);
      if CasesClean(cases, 0, stale) {
        JoinArmsSame(r.s, r'.s, r.exits);
      } else {
        DivergedLater(r.s, r'.s, JoinArms(r.s, r.exits).s, JoinArms(r'.s, r'.exits).s);
      }
    }
  }

  // ----- whole functions -----

  lemma {:induction false} StoreParametersOk(s: State, names: seq<string>, i: nat)
    requires LocalsOk(s) && Open(s)
    ensures LocalsOk(StoreParameters(s, names, i)) && Open(StoreParameters(s, names, i))
    decreases |names| - i
  {
    if i < |names| {
      StoreParametersOk(Put(AddLocal(s, names[i]), Store(Cells(s), Register(i))), names, i + 1);
    }
  }

  lemma AgreesWithItself(l: seq<Local>)
    ensures Agree(l, l, {})
  {
  }

  /**
   The compiler's emission equals scoped emission exactly when the body uses no stale name: for every function
   the compiler emits.
   */
  lemma EmissionsEqualIff(names: seq<string>, body: seq<Stmt>, returnsValue: bool)
    requires EmitFunction(names, body, returnsValue, false).Some?
    ensures EmitFunction(names, body, returnsValue, true) == EmitFunction(names, body, returnsValue, false)
            <==> StaleFree(body)
  {
    hide EmitFrom, StoreParameters, Agree, AfterFrom, LocalsOk, Diverged;
    var s := StoreParameters(StartFunction(|names|), names, 0);
    assert LocalsOk(StartFunction(|names|)) by { NoLocals(StartFunction(|names|)); }
    StoreParametersOk(StartFunction(|names|), names, 0);
    AgreesWithItself(s.locals);
    FromRelates(s, s, body, 0, returnsValue, {});
    var r, r' := EmitFrom(s, body, 0, returnsValue, true), EmitFrom(s, body, 0, returnsValue, false);
    if !StaleFree(body) && r.Lowered? {
      GraphsDiffer(r.s, r'.s);
      GraphsDiffer(End(r.s, RetVoid), End(r'.s, RetVoid)) by { DivergedEnd(r.s, r'.s); }
      GraphsDiffer(End(r.s, RetVoid), r'.s) by { DivergedEnd(r.s, r'.s); }
      GraphsDiffer(r.s, End(r'.s, RetVoid)) by { DivergedEnd(r.s, r'.s); }
    }
  }

  lemma NoLocals(s: State)
    requires s.locals == []
    ensures LocalsOk(s)
  {
  }

  lemma DivergedEnd(s: State, s': State)
    requires Diverged(s, s')
    ensures Diverged(End(s, RetVoid), End(s', RetVoid)) && Diverged(End(s, RetVoid), s') && Diverged(s, End(s', RetVoid))
  {
    hide Diverged;
    EndGrows(s, RetVoid);
    EndGrows(s', RetVoid);
    GrowsBlocks(s, s);
    GrowsBlocks(s', s');
    DivergedLater(s, s', End(s, RetVoid), End(s', RetVoid));
    DivergedLater(s, s', End(s, RetVoid), s');
    DivergedLater(s, s', s, End(s', RetVoid));
  }

  lemma GraphsDiffer(s: State, s': State)
    requires Diverged(s, s')
    ensures ConnectEntry(s) != ConnectEntry(s')
  {
    var b, k :| 0 <= b < |s.blocks| && b < |s'.blocks| && DiffersAt(s.blocks[b].body, s'.blocks[b].body, k);
    assert ConnectEntry(s)[b].body == s.blocks[b].body && ConnectEntry(s')[b].body == s'.blocks[b].body;
  }
}
