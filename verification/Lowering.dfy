/**
 Lowering of bodies to a control-flow graph, as a function on builder states. Block 0 is the allocation
 block; `at` is the insertion block. `pops` says whether a nested block removes its names from the local
 table when it ends: the compiler's own emission does not (`pops == false`) except after match arms.
 */
module Lowering {
  import opened Integers
  import opened MachineIntegers
  import opened Options
  import opened Syntax
  import opened Patterns
  import opened Machine

  datatype Local = Local(name: string, cell: nat)

  datatype Builder = State(blocks: seq<Block>, at: nat, registers: nat, locals: seq<Local>)

  type State = s: Builder | 0 < s.at < |s.blocks| && s.blocks[0].end.None?
    witness State([Block([], None), Block([], None)], 1, 0, [])

  function LocalNames(locals: seq<Local>): (names: seq<string>)
    ensures |names| == |locals|
    ensures forall i :: 0 <= i < |locals| ==> names[i] == locals[i].name
  {
    seq(|locals|, i requires 0 <= i < |locals| => locals[i].name)
  }

  // ----- builder steps -----

  predicate Open(s: State) {
    s.blocks[s.at].end.None?
  }

  /** Cells are numbered by their allocation, so the next one is the length of the allocation block. */
  function Cells(s: State): nat {
    |s.blocks[0].body|
  }

  function Appended(b: Block, i: Instruction): Block {
    b.(body := b.body + [i])
  }

  function Put(s: State, i: Instruction): (t: State)
    ensures |t.blocks| == |s.blocks| && t.at == s.at && t.registers == s.registers && t.locals == s.locals
    ensures Open(t) == Open(s) && Cells(t) == Cells(s)
  {
    s.(blocks := s.blocks[s.at := Appended(s.blocks[s.at], i)])
  }

  /** Adds an instruction that defines the next register. */
  function Define(s: State, i: Instruction): (t: State)
    ensures |t.blocks| == |s.blocks| && t.at == s.at && t.registers == s.registers + 1 && t.locals == s.locals
    ensures Open(t) == Open(s) && Cells(t) == Cells(s)
  {
    Put(s, i).(registers := s.registers + 1)
  }

  function End(s: State, t: Terminator): State {
    s.(blocks := s.blocks[s.at := s.blocks[s.at].(end := Some(t))])
  }

  function NewBlock(s: State): State {
    s.(blocks := s.blocks + [Block([], None)])
  }

  /** Moves the insertion point; only ever asked for a block that was appended before. */
  function Position(s: State, b: nat): State {
    if 0 < b < |s.blocks| then s.(at := b) else s
  }

  function Allocate(s: State): State {
    s.(blocks := s.blocks[0 := Appended(s.blocks[0], Alloca(Cells(s)))])
  }

  function AddLocal(s: State, x: string): State {
    Allocate(s).(locals := s.locals + [Local(x, Cells(s))])
  }

  // ----- expressions -----

  datatype Emission = Failed | Emitted(s: State, a: Operand)

  /** Splits the current block: `condition` leads to a trap, otherwise emission continues. */
  function TrapIf(s: State, condition: Operand): (t: State)
    ensures t.registers == s.registers && t.locals == s.locals && Cells(t) == Cells(s)
  {
    var trap := |s.blocks|;
    var split := End(NewBlock(NewBlock(s)), CondBr(condition, trap, trap + 1));
    var trapped := End(Put(Position(split, trap), TrapCall), Unreachable);
    Position(trapped, trap + 1)
  }

  function EmitChecked(s: State, op: ArithOp, t: IntType, a: Operand, b: Operand): Emission {
    var r, wide := s.registers, WideBits(t.bits);
    var s1 := Define(s, Cast(r, Extension(t), t.bits, wide, a));
    var s2 := Define(s1, Cast(r + 1, Extension(t), t.bits, wide, b));
    var s3 := Define(s2, Binary(r + 2, WideOp(op), Register(r), Register(r + 1)));
    var s4 := Define(s3, Cast(r + 3, Trunc, wide, t.bits, Register(r + 2)));
    var s5 := Define(s4, Cast(r + 4, Extension(t), t.bits, wide, Register(r + 3)));
    var s6 := Define(s5, ICmp(r + 5, NE, Register(r + 2), Register(r + 4)));
    Emitted(TrapIf(s6, Register(r + 5)), Register(r + 3))
  }

  function EmitQuotient(s: State, op: ArithOp, t: IntType, a: Operand, b: Operand): Emission {
    var r := s.registers;
    var s1 := TrapIf(Define(s, ICmp(r, EQ, b, Constant(Bits(t.bits, 0)))), Register(r));
    if t.signed then
      var s2 := Define(s1, ICmp(r + 1, EQ, a, Constant(Bits(t.bits, Pow2(t.bits - 1)))));
      var s3 := Define(s2, ICmp(r + 2, EQ, b, Constant(Bits(t.bits, Pow2(t.bits) - 1))));
      var s4 := Define(s3, Binary(r + 3, IAnd, Register(r + 1), Register(r + 2)));
      var s5 := TrapIf(s4, Register(r + 3));
      Emitted(Define(s5, Binary(r + 4, QuotientOp(op, t), a, b)), Register(r + 4))
    else
      Emitted(Define(s1, Binary(r + 1, QuotientOp(op, t), a, b)), Register(r + 1))
  }

  function EmitShift(s: State, op: ArithOp, t: IntType, a: Operand, b: Operand): Emission {
    var r := s.registers;
    var s1 := TrapIf(Define(s, ICmp(r, UGE, b, Constant(Bits(t.bits, t.bits)))), Register(r));
    Emitted(Define(s1, Binary(r + 1, ShiftOp(op, t), a, b)), Register(r + 1))
  }

  function EmitArith(s: State, op: ArithOp, t: IntType, a: Operand, b: Operand): Emission {
    if op == Divide || op == Modulo then EmitQuotient(s, op, t, a, b)
    else if op == Add || op == Subtract || op == Multiply then EmitChecked(s, op, t, a, b)
    else if op == ShiftLeft || op == ShiftRight then EmitShift(s, op, t, a, b)
    else Emitted(Define(s, Binary(s.registers, BitOp(op), a, b)), Register(s.registers))
  }

  function EmitConversion(s: State, from: IntType, to: IntType, a: Operand): Emission {
    match ConversionCast(from, to)
    case None => Emitted(s, a)
    case Some(op) => Emitted(Define(s, Cast(s.registers, op, from.bits, to.bits, a)), Register(s.registers))
  }

  function EmitRead(s: State, x: string, path: seq<nat>): Emission {
    match Newest(LocalNames(s.locals), x)
    case None => Failed
    case Some(i) => Emitted(Define(s, Load(s.registers, Place(s.locals[i].cell, path))), Register(s.registers))
  }

  /** After the left operand: its value is kept in a cell, and the right operand runs in its own block. */
  function OpenLogic(s: State, a: Operand, isAnd: bool): State {
    var right := |s.blocks|;
    var stored := Put(Allocate(s), Store(Cells(s), a));
    var split := End(NewBlock(NewBlock(stored)), if isAnd then CondBr(a, right, right + 1) else CondBr(a, right + 1, right));
    Position(split, right)
  }

  /** After the right operand, emitted from `OpenLogic(left, ..)`: both paths meet and reload the cell. */
  function CloseLogic(left: State, s: State, b: Operand): Emission {
    var stored := Put(s, Store(Cells(left), b));
    var joined := if Open(stored) then End(stored, Br(|left.blocks| + 1)) else stored;
    var merged := Position(joined, |left.blocks| + 1);
    Emitted(Define(merged, Load(s.registers, Place(Cells(left), []))), Register(s.registers))
  }

  function EmitExpr(s: State, e: Expr): Emission
    decreases e
  {
    match e
    case IntLiteral(t, n) => Emitted(s, Constant(FromInteger(n, t)))
    case BoolLiteral(b) => Emitted(s, Constant(Bool(b)))
    case Read(x, path) => EmitRead(s, x, path)
    case Convert(from, to, operand) =>
      (match EmitExpr(s, operand)
       case Failed => Failed
       case Emitted(s1, a) => EmitConversion(s1, from, to, a))
    case Arith(op, t, left, right) =>
      (match EmitExpr(s, left)
       case Failed => Failed
       case Emitted(s1, a) =>
         match EmitExpr(s1, right)
         case Failed => Failed
         case Emitted(s2, b) => EmitArith(s2, op, t, a, b))
    case Compare(cmp, t, left, right) =>
      (match EmitExpr(s, left)
       case Failed => Failed
       case Emitted(s1, a) =>
         match EmitExpr(s1, right)
         case Failed => Failed
         case Emitted(s2, b) =>
           Emitted(Define(s2, ICmp(s2.registers, ComparePredicate(cmp, t), a, b)), Register(s2.registers)))
    case SameBool(negated, left, right) =>
      (match EmitExpr(s, left)
       case Failed => Failed
       case Emitted(s1, a) =>
         match EmitExpr(s1, right)
         case Failed => Failed
         case Emitted(s2, b) =>
           Emitted(Define(s2, ICmp(s2.registers, if negated then NE else EQ, a, b)), Register(s2.registers)))
    case And(left, right) =>
      (match EmitExpr(s, left)
       case Failed => Failed
       case Emitted(s1, a) =>
         match EmitExpr(OpenLogic(s1, a, true), right)
         case Failed => Failed
         case Emitted(s2, b) => CloseLogic(s1, s2, b))
    case Or(left, right) =>
      (match EmitExpr(s, left)
       case Failed => Failed
       case Emitted(s1, a) =>
         match EmitExpr(OpenLogic(s1, a, false), right)
         case Failed => Failed
         case Emitted(s2, b) => CloseLogic(s1, s2, b))
    case Not(operand) =>
      (match EmitExpr(s, operand)
       case Failed => Failed
       case Emitted(s1, a) =>
         Emitted(Define(s1, Binary(s1.registers, IXor, a, Constant(Bool(true)))), Register(s1.registers)))
    case Negate(t, operand) =>
      (match EmitExpr(s, operand)
       case Failed => Failed
       case Emitted(s1, a) => EmitArith(s1, Subtract, t, Constant(Bits(t.bits, 0)), a))
    case BitNot(t, operand) =>
      (match EmitExpr(s, operand)
       case Failed => Failed
       case Emitted(s1, a) =>
         Emitted(Define(s1, Binary(s1.registers, IXor, a, Constant(Bits(t.bits, Pow2(t.bits) - 1)))),
                 Register(s1.registers)))
  }

  // ----- patterns -----

  function FieldPlace(place: Place, i: nat): Place {
    place.(path := place.path + [i])
  }

  /** Copies one payload of the tagged value at `place` to a fresh cell. */
  function ExtractPayload(s: State, place: Place, tag: nat, index: nat): State {
    Put(Allocate(s), CopyPayload(Cells(s), place, tag, index))
  }

  function OpenTagTest(s: State, tag: nat, place: Place): State {
    var r, matched := s.registers, |s.blocks|;
    var s1 := Define(s, LoadTag(r, place));
    var s2 := Define(s1, ICmp(r + 1, EQ, Register(r), Constant(Bits(64, tag))));
    var s3 := Put(Allocate(s2), Store(Cells(s2), Constant(Bool(false))));
    Position(End(NewBlock(NewBlock(s3)), CondBr(Register(r + 1), matched, matched + 1)), matched)
  }

  /** After the payload tests of the tag test opened from `before`. */
  function CloseTagTest(before: State, s: State, condition: Operand): Emission {
    var s1 := End(Put(s, Store(Cells(before), condition)), Br(|before.blocks| + 1));
    var s2 := Position(s1, |before.blocks| + 1);
    Emitted(Define(s2, Load(s.registers, Place(Cells(before), []))), Register(s.registers))
  }

  function Conjoin(s: State, a: Operand, b: Operand): Emission {
    Emitted(Define(s, Binary(s.registers, IAnd, a, b)), Register(s.registers))
  }

  /** Computes whether the value stored at `place` matches the pattern. */
  function EmitCondition(s: State, p: Pattern, place: Place): Emission
    decreases p
  {
    match p
    case Wildcard => Emitted(s, Constant(Bool(true)))
    case Binding(_) => Emitted(s, Constant(Bool(true)))
    case StructPattern(fields) => EmitFieldConditions(s, fields, 0, place, Constant(Bool(true)))
    case EnumPattern(tag, payloads) =>
      match EmitPayloadConditions(OpenTagTest(s, tag, place), payloads, 0, place, tag, Constant(Bool(true)))
      case Failed => Failed
      case Emitted(s1, c) => CloseTagTest(s, s1, c)
  }

  function EmitFieldConditions(s: State, fields: seq<FieldPattern>, i: nat, place: Place, acc: Operand): Emission
    decreases fields, |fields| - i
  {
    if i >= |fields| then Emitted(s, acc)
    else
      match EmitFieldCondition(s, fields[i], place)
      case Failed => Failed
      case Emitted(s1, c) =>
        var Emitted(s2, both) := Conjoin(s1, acc, c);
        EmitFieldConditions(s2, fields, i + 1, place, both)
  }

  function EmitFieldCondition(s: State, f: FieldPattern, place: Place): Emission
    decreases f
  {
    EmitCondition(s, f.pattern, FieldPlace(place, f.index))
  }

  function EmitPayloadConditions(
    s: State, payloads: seq<Pattern>, i: nat, place: Place, tag: nat, acc: Operand): Emission
    decreases payloads, |payloads| - i
  {
    if i >= |payloads| then Emitted(s, acc)
    else
      match EmitCondition(ExtractPayload(s, place, tag, i), payloads[i], Place(Cells(s), []))
      case Failed => Failed
      case Emitted(s1, c) =>
        var Emitted(s2, both) := Conjoin(s1, acc, c);
        EmitPayloadConditions(s2, payloads, i + 1, place, tag, both)
  }

  /** Declares the names a pattern binds and copies the matched parts into their cells. */
  function EmitBind(s: State, p: Pattern, place: Place): State
    decreases p
  {
    match p
    case Wildcard => s
    case Binding(x) =>
      var s1 := AddLocal(s, x);
      Put(Define(s1, Load(s.registers, place)), Store(Cells(s), Register(s.registers)))
    case StructPattern(fields) => EmitBindFields(s, fields, 0, place)
    case EnumPattern(tag, payloads) => EmitBindPayloads(s, payloads, 0, place, tag)
  }

  function EmitBindFields(s: State, fields: seq<FieldPattern>, i: nat, place: Place): State
    decreases fields, |fields| - i
  {
    if i >= |fields| then s else EmitBindFields(EmitBindField(s, fields[i], place), fields, i + 1, place)
  }

  function EmitBindField(s: State, f: FieldPattern, place: Place): State
    decreases f
  {
    EmitBind(s, f.pattern, FieldPlace(place, f.index))
  }

  function EmitBindPayloads(s: State, payloads: seq<Pattern>, i: nat, place: Place, tag: nat): State
    decreases payloads, |payloads| - i
  {
    if i >= |payloads| then s
    else
      EmitBindPayloads(EmitBind(ExtractPayload(s, place, tag, i), payloads[i], Place(Cells(s), [])),
                       payloads, i + 1, place, tag)
  }

  // ----- statements -----

  datatype Lowered = Rejected | Lowered(s: State, terminated: bool)

  datatype Dispatch = Always | ByTag(tag: nat) | ByTest

  /** Every pattern of a match passes the pattern analysis at the matched type. */
  predicate Analyzed(t: Type, cases: seq<Case>) {
    forall i :: 0 <= i < |cases| ==> Analyze(t, cases[i].pattern).Some?
  }

  /** How a case is selected: unconditionally, by its tag alone, or by testing the whole pattern. */
  function DispatchOf(info: Info): Dispatch {
    if info.tag.Some? then (if info.covered then ByTag(info.tag.value) else ByTest)
    else if info.irrefutable then Always
    else ByTest
  }

  function NewBlocks(s: State, n: nat): State
    decreases n
  {
    if n == 0 then s else NewBlocks(NewBlock(s), n - 1)
  }

  /** Emits the chain of tests that selects an arm; arm `i` is block `base + i`. */
  function EmitDispatch(
    s: State, t: Type, cases: seq<Case>, i: nat, base: nat, storage: nat, tag: Option<Operand>): Option<State>
    decreases |cases| - i
  {
    if i >= |cases| then Some(End(s, Unreachable))
    else
      match Analyze(t, cases[i].pattern)
      case None => None
      case Some(info) =>
        match DispatchOf(info)
        case Always => Some(End(s, Br(base + i)))
        case ByTag(k) =>
          if tag.None? then None else
          var s1 := Define(s, ICmp(s.registers, EQ, tag.value, Constant(Bits(64, k))));
          EmitDispatch(Dispatched(s1, Register(s.registers), base + i), t, cases, i + 1, base, storage, tag)
        case ByTest =>
          match EmitCondition(s, cases[i].pattern, Place(storage, []))
          case Failed => None
          case Emitted(s1, c) =>
            EmitDispatch(Dispatched(s1, c, base + i), t, cases, i + 1, base, storage, tag)
  }

  function Dispatched(s: State, condition: Operand, arm: nat): State {
    Position(End(NewBlock(s), CondBr(condition, arm, |s.blocks|)), |s.blocks|)
  }

  /** The state in which the dispatch of a match starts: value stored, tag loaded, arm blocks appended. */
  function OpenMatch(s: State, t: Type, a: Operand, arms: nat): State {
    var stored := Put(Allocate(s), Store(Cells(s), a));
    NewBlocks(if t.EnumType? then Define(stored, LoadTag(s.registers, Place(Cells(s), []))) else stored, arms)
  }

  function MatchTag(s: State, t: Type): Option<Operand> {
    if t.EnumType? then Some(Register(s.registers)) else None
  }

  datatype Arms = ArmsRejected | Arms(s: State, exits: seq<Option<nat>>)

  /** Ends every arm that falls through with a branch to `merge`. */
  function JoinExits(s: State, exits: seq<Option<nat>>, i: nat, merge: nat): State
    decreases |exits| - i
  {
    if i >= |exits| then s
    else JoinExits(if exits[i].Some? then End(Position(s, exits[i].value), Br(merge)) else s, exits, i + 1, merge)
  }

  function JoinArms(s: State, exits: seq<Option<nat>>): Lowered {
    if forall i :: 0 <= i < |exits| ==> exits[i].None? then Lowered(s, true)
    else
      var joined := JoinExits(NewBlock(s), exits, 0, |s.blocks|);
      Lowered(Position(joined, |s.blocks|), false)
  }

  function KeepLocals(before: State, s: State): State {
    s.(locals := before.locals)
  }

  /** Leaves a nested block, forgetting its names if `pops`. */
  function LeaveBlock(before: State, s: State, pops: bool): State {
    if pops then KeepLocals(before, s) else s
  }

  function JoinIf(s: State, thenExit: Option<nat>, elseExit: Option<nat>): Lowered {
    if thenExit.None? && elseExit.None? then Lowered(s, true)
    else
      var s1 := NewBlock(s);
      var s2 := if thenExit.Some? then End(Position(s1, thenExit.value), Br(|s.blocks|)) else s1;
      var s3 := if elseExit.Some? then End(Position(s2, elseExit.value), Br(|s.blocks|)) else s2;
      Lowered(Position(s3, |s.blocks|), false)
  }

  function ExitOf(r: Lowered): Option<nat>
    requires r.Lowered?
  {
    if r.terminated then None else Some(r.s.at)
  }

  function OpenIf(s: State, condition: Operand): State {
    Position(End(NewBlock(NewBlock(s)), CondBr(condition, |s.blocks|, |s.blocks| + 1)), |s.blocks|)
  }

  function OpenWhile(s: State): State {
    Position(End(NewBlock(NewBlock(NewBlock(s))), Br(|s.blocks|)), |s.blocks|)
  }

  function CloseWhile(before: State, body: Lowered): Lowered
    requires body.Lowered?
  {
    var s := if body.terminated then body.s else End(body.s, Br(|before.blocks|));
    Lowered(Position(s, |before.blocks| + 2), false)
  }

  /** `returnsValue` distinguishes functions with an output type from void ones. */
  function EmitStatement(s: State, stmt: Stmt, returnsValue: bool, pops: bool): Lowered
    decreases stmt
  {
    if !Open(s) then Rejected else
    match stmt
    case Declare(x, _, _) => Lowered(AddLocal(s, x), false)
    case Assign(x, e) =>
      (match Newest(LocalNames(s.locals), x)
       case None => Rejected
       case Some(i) =>
         match EmitExpr(s, e)
         case Failed => Rejected
         case Emitted(s1, a) => Lowered(Put(s1, Store(s.locals[i].cell, a)), false))
    case Return(None) => if returnsValue then Rejected else Lowered(End(s, RetVoid), true)
    case Return(Some(e)) =>
      if !returnsValue then Rejected else
      (match EmitExpr(s, e)
       case Failed => Rejected
       case Emitted(s1, a) => Lowered(End(s1, Ret(a)), true))
    case If(c, thenBlock, elseBlock) =>
      (match EmitExpr(s, c)
       case Failed => Rejected
       case Emitted(s1, a) =>
         match EmitFrom(OpenIf(s1, a), thenBlock, 0, returnsValue, pops)
         case Rejected => Rejected
         case Lowered(s2, done2) =>
           match EmitFrom(Position(LeaveBlock(s1, s2, pops), |s1.blocks| + 1), elseBlock, 0, returnsValue, pops)
           case Rejected => Rejected
           case Lowered(s3, done3) =>
             JoinIf(LeaveBlock(s1, s3, pops), ExitOf(Lowered(s2, done2)), ExitOf(Lowered(s3, done3))))
    case Unsafe(body) =>
      (match EmitFrom(s, body, 0, returnsValue, pops)
       case Rejected => Rejected
       case Lowered(s1, done) => Lowered(LeaveBlock(s, s1, pops), done))
    case While(c, body) =>
      (match EmitExpr(OpenWhile(s), c)
       case Failed => Rejected
       case Emitted(s1, a) =>
         var s2 := Position(End(s1, CondBr(a, |s.blocks| + 1, |s.blocks| + 2)), |s.blocks| + 1);
         match EmitFrom(s2, body, 0, returnsValue, pops)
         case Rejected => Rejected
         case Lowered(s3, done) => CloseWhile(s, Lowered(LeaveBlock(s, s3, pops), done)))
    case Match(t, scrutinee, cases) =>
      if cases == [] || !Analyzed(t, cases) then Rejected else
      match EmitExpr(s, scrutinee)
      case Failed => Rejected
      case Emitted(s1, a) =>
        var s2 := OpenMatch(s1, t, a, |cases|);
        var base := |s1.blocks|;
        match EmitDispatch(s2, t, cases, 0, base, Cells(s1), MatchTag(s1, t))
        case None => Rejected
        case Some(s3) =>
          match EmitArms(s3, cases, 0, base, Cells(s1), returnsValue, pops)
          case ArmsRejected => Rejected
          case Arms(s4, exits) => JoinArms(s4, exits)
  }

  function EmitFrom(s: State, block: seq<Stmt>, i: nat, returnsValue: bool, pops: bool): Lowered
    decreases block, |block| - i
  {
    if i >= |block| then Lowered(s, false)
    else
      match EmitStatement(s, block[i], returnsValue, pops)
      case Rejected => Rejected
      case Lowered(s1, done) => if done then Lowered(s1, true) else EmitFrom(s1, block, i + 1, returnsValue, pops)
  }

  function EmitArms(
    s: State, cases: seq<Case>, i: nat, base: nat, storage: nat, returnsValue: bool, pops: bool): Arms
    decreases cases, |cases| - i
  {
    if i >= |cases| then Arms(s, [])
    else
      match EmitArm(Position(s, base + i), cases[i], storage, returnsValue, pops)
      case Rejected => ArmsRejected
      case Lowered(s1, done) =>
        match EmitArms(s1, cases, i + 1, base, storage, returnsValue, pops)
        case ArmsRejected => ArmsRejected
        case Arms(s2, exits) => Arms(s2, [ExitOf(Lowered(s1, done))] + exits)
  }

  function EmitArm(s: State, c: Case, storage: nat, returnsValue: bool, pops: bool): Lowered
    decreases c
  {
    match EmitFrom(EmitBind(s, c.pattern, Place(storage, [])), c.body, 0, returnsValue, pops)
    case Rejected => Rejected
    case Lowered(s1, done) => Lowered(KeepLocals(s, s1), done)
  }

  // ----- whole functions -----

  /** The empty function: an allocation block and an entry block; parameter `i` arrives in register `i`. */
  function StartFunction(parameters: nat): State {
    State([Block([], None), Block([], None)], 1, parameters, [])
  }

  function StoreParameters(s: State, names: seq<string>, i: nat): State
    decreases |names| - i
  {
    if i >= |names| then s
    else StoreParameters(Put(AddLocal(s, names[i]), Store(Cells(s), Register(i))), names, i + 1)
  }

  /** The finished graph of a function body, when emission succeeds. */
  function EmitFunction(names: seq<string>, body: seq<Stmt>, returnsValue: bool, pops: bool): Option<Graph> {
    match EmitFrom(StoreParameters(StartFunction(|names|), names, 0), body, 0, returnsValue, pops)
    case Rejected => None
    case Lowered(s, done) =>
      if done then Some(ConnectEntry(s))
      else if Open(s) then (if returnsValue then None else Some(ConnectEntry(End(s, RetVoid))))
      else Some(ConnectEntry(s))
  }

  /** The allocation block finally branches to the entry block. */
  function ConnectEntry(s: State): Graph {
    s.blocks[0 := s.blocks[0].(end := Some(Br(1)))]
  }
}
