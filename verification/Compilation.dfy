/**
 Compilation of a function: its types are settled, and the settled body is emitted. Whatever has types emits: an
 unknown name, a missing type or an open end is found before, so every other reported failure is impossible.
 */
module Compilation {
  import opened Integers
  import opened MachineIntegers
  import opened Options
  import opened Syntax
  import opened Patterns
  import opened Machine
  import opened Lowering
  import opened LoweringFrame
  import opened StatementFrame
  import opened StatementSimulation
  import opened FunctionSimulation
  import opened Termination
  import opened Hygiene
  import opened Elaboration

  function Compile(parameters: seq<Parameter>, body: seq<Stmt>, output: Option<Type>, pops: bool): Option<Graph> {
    match ElaborateFunction(parameters, body, output, pops)
    case None => None
    case Some(core) => EmitFunction(ParameterNames(parameters), core, output.Some?, pops)
  }

  // ----- names -----

  /** The emission table holds the names of the typed one. */
  predicate Tabled(locals: seq<Local>, table: Table) {
    LocalNames(locals) == NamesIn(table)
  }

  predicate AllIn(names: set<string>, table: Table) {
    forall x :: x in names ==> x in NamesIn(table)
  }

  lemma PlaceKnown(table: Table, x: string, path: seq<nat>)
    requires PlaceType(table, x, path).Some?
    ensures x in NamesIn(table)
  {
  }

  // ----- expressions -----

  /** The elaborated expression reads what the original does, and only known locals. */
  predicate ReadsKnown(r: Elaborated, e: Expr, table: Table) {
    r.Elaborated? ==> Reads(r.e) == Reads(e) && AllIn(Reads(e), table)
  }

  lemma {:induction false} ElaboratedReads(e: Expr, expected: Option<Type>, table: Table)
    ensures ReadsKnown(Elaborate(e, expected, table), e, table)
    decreases e, 2
  {
    hide PlaceType, IntegerTypeOf, ExprTypeOf, FirstConcrete;
    match e {
      case IntLiteral(_, _) =>
      case BoolLiteral(_) =>
      case Read(x, path) =>
        if PlaceType(table, x, path).Some? {
          PlaceKnown(table, x, path);
        }
      case Convert(_, to, operand) =>
        ElaboratedReads(operand, None, table);
        assert operand.IntLiteral? ==> Reads(IntLiteral(to, operand.value)) == Reads(operand);
      case Not(operand) => ElaboratedReads(operand, None, table);
      case Negate(_, operand) => SignReads(operand, expected, table);
      case BitNot(_, operand) => SignReads(operand, expected, table);
      case Arith(_, _, left, right) => OperationReads(e, left, right, expected, table);
      case Compare(_, _, left, right) => OperationReads(e, left, right, expected, table);
      case SameBool(_, left, right) => OperationReads(e, left, right, expected, table);
      case And(left, right) => LogicReads(e, left, right, expected, table);
      case Or(left, right) => LogicReads(e, left, right, expected, table);
    }
  }

  lemma {:induction false} SignReads(operand: Expr, expected: Option<Type>, table: Table)
    ensures var t := FirstConcrete(IntegerTypeOf(operand, table), None, expected);
            t.Some? ==> ReadsKnown(Elaborate(operand, Some(IntegerType(t.value)), table), operand, table)
    decreases operand, 3
  {
    hide IntegerTypeOf;
    var t := FirstConcrete(IntegerTypeOf(operand, table), None, expected);
    if t.Some? {
      ElaboratedReads(operand, Some(IntegerType(t.value)), table);
    }
  }

  lemma {:induction false} IntegerReads(e: Expr, t: IntType, left: Expr, right: Expr, table: Table)
    requires (e.Arith? || e.Compare? || e.SameBool?) && left == e.left && right == e.right
    ensures ReadsKnown(ElaborateInteger(e, t, left, right, table), e, table)
    decreases e, 0
  {
    hide PlaceType, IntegerTypeOf, ExprTypeOf, FirstConcrete, Newest, NamesIn;
    ElaboratedReads(left, Some(IntegerType(t)), table);
    ElaboratedReads(right, Some(IntegerType(t)), table);
    var l, r := Elaborate(left, Some(IntegerType(t)), table), Elaborate(right, Some(IntegerType(t)), table);
    CoercedReads(l, IntegerType(t));
    CoercedReads(r, IntegerType(t));
  }

  lemma CoercedReads(r: Elaborated, target: Type)
    ensures var c := Coerced(r, target); c.Elaborated? ==> r.Elaborated? && Reads(c.e) == Reads(r.e)
  {
  }

  lemma {:induction false} OperationReads(e: Expr, left: Expr, right: Expr, expected: Option<Type>, table: Table)
    requires (e.Arith? || e.Compare? || e.SameBool?) && left == e.left && right == e.right
    ensures ReadsKnown(Elaborate(e, expected, table), e, table)
    decreases e, 1
  {
    hide PlaceType, IntegerTypeOf, ExprTypeOf, FirstConcrete, Newest, NamesIn, ElaborateInteger;
    var t := OperationType(left, right, expected, table);
    if t.Some? {
      IntegerReads(e, t.value, left, right, table);
    }
    ElaboratedReads(left, Some(BooleanType), table);
    ElaboratedReads(right, Some(BooleanType), table);
  }

  lemma {:induction false} LogicReads(e: Expr, left: Expr, right: Expr, expected: Option<Type>, table: Table)
    requires (e.And? || e.Or?) && left == e.left && right == e.right
    ensures ReadsKnown(Elaborate(e, expected, table), e, table)
    decreases e, 1
  {
    hide Newest, NamesIn;
    ElaboratedReads(left, Some(BooleanType), table);
    ElaboratedReads(right, Some(BooleanType), table);
  }

  lemma {:induction false} ExprEmits(e: Expr, table: Table, s: State)
    requires AllIn(Reads(e), table) && Tabled(s.locals, table) && Open(s)
    ensures EmitExpr(s, e).Emitted?
    decreases e
  {
    hide Touches, EmitArith, OpenLogic, CloseLogic, Lowering.Define, Open, Plain;
    match e
    case IntLiteral(_, _) =>
    case BoolLiteral(_) =>
    case Read(_, _) =>
    case Convert(_, _, operand) => ExprEmits(operand, table, s);
    case Not(operand) => ExprEmits(operand, table, s);
    case Negate(t, operand) =>
      ExprEmits(operand, table, s);
      ArithEmits(EmitExpr(s, operand).s, Subtract, t, Constant(Bits(t.bits, 0)), EmitExpr(s, operand).a);
    case BitNot(_, operand) => ExprEmits(operand, table, s);
    case Arith(op, t, left, right) =>
      PairEmits(left, right, table, s, e);
      var l := EmitExpr(s, left);
      var r := EmitExpr(l.s, right);
      ArithEmits(r.s, op, t, l.a, r.a);
    case Compare(_, _, left, right) => PairEmits(left, right, table, s, e);
    case SameBool(_, left, right) => PairEmits(left, right, table, s, e);
    case And(left, right) => LogicEmits(left, right, table, s, e);
    case Or(left, right) => LogicEmits(left, right, table, s, e);
  }

  lemma {:induction false} PairEmits(left: Expr, right: Expr, table: Table, s: State, e: Expr)
    requires left < e && right < e && AllIn(Reads(left), table) && AllIn(Reads(right), table)
    requires Tabled(s.locals, table) && Open(s)
    ensures EmitExpr(s, left).Emitted? && EmitExpr(EmitExpr(s, left).s, right).Emitted?
    decreases e, 0
  {
    ExprEmits(left, table, s);
    EmitExprFrame(s, left);
    ExprEmits(right, table, EmitExpr(s, left).s);
  }

  lemma {:induction false} LogicEmits(left: Expr, right: Expr, table: Table, s: State, e: Expr)
    requires (e.And? || e.Or?) && left == e.left && right == e.right
    requires AllIn(Reads(left), table) && AllIn(Reads(right), table)
    requires Tabled(s.locals, table) && Open(s)
    ensures EmitExpr(s, e).Emitted?
    decreases e, 0
  {
    hide OpenLogic, CloseLogic, Touches;
    ExprEmits(left, table, s);
    EmitExprFrame(s, left);
    var l := EmitExpr(s, left);
    OpenLogicFrame(l.s, l.a, e.And?);
    ExprEmits(right, table, OpenLogic(l.s, l.a, e.And?));
    LogicIs(s, e);
    CloseLogicEmits(l.s, EmitExpr(OpenLogic(l.s, l.a, e.And?), right).s, EmitExpr(OpenLogic(l.s, l.a, e.And?),
                                                                                  right).a);
  }

  lemma ArithEmits(s: State, op: ArithOp, t: IntType, a: Operand, b: Operand)
    ensures EmitArith(s, op, t, a, b).Emitted?
  {
    hide Lowering.Define, TrapIf;
  }

  lemma CloseLogicEmits(left: State, s: State, b: Operand)
    ensures CloseLogic(left, s, b).Emitted?
  {
  }

  /** A settled expression emits, and leaves the table alone. */
  lemma SettledEmits(e: Expr, expected: Option<Type>, table: Table, s: State)
    requires Elaborate(e, expected, table).Elaborated? && Tabled(s.locals, table) && Open(s)
    ensures var r := EmitExpr(s, Elaborate(e, expected, table).e);
            r.Emitted? && Open(r.s) && r.s.locals == s.locals && Plain(s, r.s)
  {
    hide Elaborate, EmitExpr, Touches;
    ElaboratedReads(e, expected, table);
    ExprEmits(Elaborate(e, expected, table).e, table, s);
    EmitExprFrame(s, Elaborate(e, expected, table).e);
  }

  /** So does its coercion. */
  lemma CoercedEmits(r: Elaborated, target: Type, s: State)
    requires r.Elaborated? && Coerced(r, target).Elaborated? && EmitExpr(s, r.e).Emitted? && Open(s)
    requires EmitExpr(s, r.e).s.locals == s.locals
    ensures var c := EmitExpr(s, Coerced(r, target).e);
            c.Emitted? && Open(c.s) && c.s.locals == s.locals && Plain(s, c.s)
  {
    hide Touches, Lowering.Define;
    EmitExprFrame(s, Coerced(r, target).e);
  }

  // ----- settled statements end where the originals do -----

  lemma {:induction false} SettledEnds(stmt: Stmt, table: Table, output: Option<Type>, pops: bool)
    requires ElaborateStatement(stmt, table, output, pops).Some?
    ensures Ends(ElaborateStatement(stmt, table, output, pops).value) <==> Ends(stmt)
    decreases stmt
  {
    hide Elaborate, ElaborateFrom, ElaborateCases, ElaborateCondition, ElaborateScrutinee, TypeAt, Left;
    var core := ElaborateStatement(stmt, table, output, pops).value;
    match stmt {
      case If(_, thenBlock, elseBlock) =>
        BlockEndsToo(thenBlock, table, output, pops);
        BlockEndsToo(elseBlock, table + LeftBy(thenBlock, pops), output, pops);
      case Unsafe(body) => BlockEndsToo(body, table, output, pops);
      case Match(_, scrutinee, cases) =>
        CasesEndToo(cases, 0, core.matched, core.cases, table, output, pops);
        assert forall j :: 0 <= j < |cases| ==> (EndsCase(core.cases[j]) <==> EndsCase(cases[j]));
      case _ =>
    }
  }

  lemma {:induction false} BlockEndsToo(block: seq<Stmt>, table: Table, output: Option<Type>, pops: bool)
    ensures var r := ElaborateFrom(block, 0, table, output, pops);
            r.Some? ==> (EndsFrom(r.value, 0) <==> EndsFrom(block, 0))
    decreases block, |block| + 1
  {
    hide ElaborateFrom, EndsFrom;
    var r := ElaborateFrom(block, 0, table, output, pops);
    if r.Some? {
      assert r.value[0..] == r.value;
      FromEndsToo(block, 0, r.value, table, output, pops);
    }
  }

  lemma {:induction false} FromEndsToo(
    block: seq<Stmt>, i: nat, core: seq<Stmt>, table: Table, output: Option<Type>, pops: bool)
    requires i <= |block| == |core| && ElaborateFrom(block, i, table, output, pops) == Some(core[i..])
    ensures EndsFrom(core, i) <==> EndsFrom(block, i)
    decreases block, |block| - i
  {
    hide ElaborateStatement, Left, Ends;
    if i < |block| {
      SettledEnds(block[i], table, output, pops);
      assert core[i] == core[i..][0] && core[i + 1..] == core[i..][1..];
      if !Ends(block[i]) {
        FromEndsToo(block, i + 1, core, table + Left(block[i], pops), output, pops);
      }
    }
  }

  lemma {:induction false} CasesEndToo(
    cases: seq<Case>, i: nat, t: Type, core: seq<Case>, table: Table, output: Option<Type>, pops: bool)
    requires i <= |cases| == |core| && ElaborateCases(cases, i, t, table, output, pops) == Some(core[i..])
    ensures forall j :: i <= j < |cases| ==>
              core[j].pattern == cases[j].pattern && Analyze(t, cases[j].pattern).Some?
              && (EndsCase(core[j]) <==> EndsCase(cases[j]))
    decreases cases, |cases| - i
  {
    hide AnalyzeNode, EndsFrom, ElaborateFrom;
    if i < |cases| {
      assert core[i] == core[i..][0] && core[i + 1..] == core[i..][1..];
      CaseEndsToo(cases[i], t, table, output, pops);
      CasesEndToo(cases, i + 1, t, core, table, output, pops);
    }
  }

  lemma {:induction false} CaseEndsToo(c: Case, t: Type, table: Table, output: Option<Type>, pops: bool)
    ensures var r := ElaborateCase(c, t, table, output, pops);
            r.Some? ==>
              && r.value.pattern == c.pattern && Analyze(t, c.pattern).Some?
              && (EndsCase(r.value) <==> EndsCase(c))
    decreases c
  {
    hide AnalyzeNode, EndsFrom, ElaborateFrom;
    if Analyze(t, c.pattern).Some? {
      BlockEndsToo(c.body, table + Entries(Analyze(t, c.pattern).value.bindings), output, pops);
    }
  }

  // ----- settled statements use the names the originals do -----

  lemma CoercedValueReads(e: Expr, target: Type, table: Table)
    ensures var c := Coerced(Elaborate(e, Some(target), table), target); c.Elaborated? ==> Reads(c.e) == Reads(e)
  {
    hide Elaborate, Reads;
    ElaboratedReads(e, Some(target), table);
    CoercedReads(Elaborate(e, Some(target), table), target);
  }

  lemma {:induction false} SettledStale(
    stmt: Stmt, table: Table, output: Option<Type>, pops: bool, stale: set<string>)
    requires ElaborateStatement(stmt, table, output, pops).Some?
    ensures var core := ElaborateStatement(stmt, table, output, pops).value;
            && AfterStatement(core, stale) == AfterStatement(stmt, stale)
            && core.Declare? == stmt.Declare? && (stmt.Declare? ==> core == stmt)
    decreases stmt
  {
    hide Elaborate, Coerced, ElaborateFrom, ElaborateCases, TypeAt, Left, Reads, AfterBlock, CaseClean;
    var core := ElaborateStatement(stmt, table, output, pops).value;
    match stmt {
      case Declare(_, _, _) =>
      case Assign(x, e) => CoercedValueReads(e, TypeAt(table, x).value, table);
      case Return(result) =>
        if result.Some? {
          CoercedValueReads(result.value, output.value, table);
        }
      case If(c, thenBlock, elseBlock) =>
        ElaboratedReads(c, None, table);
        BlockStale(thenBlock, table, output, pops, stale);
        var next := AfterBlock(thenBlock, stale);
        if next.Some? {
          BlockStale(elseBlock, table + LeftBy(thenBlock, pops), output, pops, next.value);
        }
      case While(c, body) =>
        ElaboratedReads(c, None, table);
        BlockStale(body, table, output, pops, stale);
      case Unsafe(body) => BlockStale(body, table, output, pops, stale);
      case Match(_, scrutinee, cases) =>
        CoercedValueReads(scrutinee, ExprTypeOf(scrutinee, table).value, table);
        assert core.cases[0..] == core.cases;
        CasesStale(cases, 0, core.matched, core.cases, table, output, pops, stale);
    }
  }

  lemma {:induction false} BlockStale(
    block: seq<Stmt>, table: Table, output: Option<Type>, pops: bool, stale: set<string>)
    requires ElaborateFrom(block, 0, table, output, pops).Some?
    ensures var core := ElaborateFrom(block, 0, table, output, pops).value;
            AfterFrom(core, 0, stale) == AfterFrom(block, 0, stale) && AfterBlock(core,
                                                                                  stale) == AfterBlock(block, stale)
    decreases block, |block| + 1
  {
    hide ElaborateFrom, AfterFrom, DeclaredFrom;
    var core := ElaborateFrom(block, 0, table, output, pops).value;
    assert core[0..] == core;
    FromStale(block, 0, core, table, output, pops, stale);
  }

  lemma {:induction false} FromStale(
    block: seq<Stmt>, i: nat, core: seq<Stmt>, table: Table, output: Option<Type>, pops: bool, stale: set<string>)
    requires i <= |block| == |core| && ElaborateFrom(block, i, table, output, pops) == Some(core[i..])
    ensures AfterFrom(core, i, stale) == AfterFrom(block, i, stale) && DeclaredFrom(core, i) == DeclaredFrom(block, i)
    decreases block, |block| - i
  {
    hide ElaborateStatement, AfterStatement, Left, Ends;
    if i < |block| {
      SettledStale(block[i], table, output, pops, stale);
      SettledEnds(block[i], table, output, pops);
      assert core[i] == core[i..][0] && core[i + 1..] == core[i..][1..];
      if !Ends(block[i]) {
        var next := AfterStatement(block[i], stale);
        FromStale(block, i + 1, core, table + Left(block[i], pops), output, pops,
                  if next.Some? then next.value else stale);
      }
    }
  }

  lemma {:induction false} CasesStale(
    cases: seq<Case>, i: nat, t: Type, core: seq<Case>, table: Table, output: Option<Type>, pops: bool,
    stale: set<string>)
    requires i <= |cases| == |core| && ElaborateCases(cases, i, t, table, output, pops) == Some(core[i..])
    ensures forall j :: i <= j < |cases| ==> (CaseClean(core[j], stale) <==> CaseClean(cases[j], stale))
    decreases cases, |cases| - i
  {
    hide ElaborateCase, CaseClean;
    if i < |cases| {
      assert core[i] == core[i..][0] && core[i + 1..] == core[i..][1..];
      CaseStale(cases[i], t, table, output, pops, stale);
      CasesStale(cases, i + 1, t, core, table, output, pops, stale);
    }
  }

  lemma {:induction false} CaseStale(
    c: Case, t: Type, table: Table, output: Option<Type>, pops: bool, stale: set<string>)
    requires ElaborateCase(c, t, table, output, pops).Some?
    ensures CaseClean(ElaborateCase(c, t, table, output, pops).value, stale) <==> CaseClean(c, stale)
    decreases c
  {
    hide AnalyzeNode, ElaborateFrom, AfterFrom, PatternNames;
    var infos := Analyze(t, c.pattern).value.bindings;
    BlockStale(c.body, table + Entries(infos), output, pops, stale - PatternNames(c.pattern));
  }

  // ----- patterns -----

  /** The entries of the bindings found after `found`. */
  function Fresh(found: seq<BindingInfo>, infos: seq<BindingInfo>): Table
    requires |found| <= |infos|
  {
    Entries(infos[|found|..])
  }

  lemma FreshThrough(table: Table, found: seq<BindingInfo>, next: seq<BindingInfo>, infos: seq<BindingInfo>)
    requires found <= next <= infos
    ensures table + Fresh(found, next) + Fresh(next, infos) == table + Fresh(found, infos)
  {
    assert infos[|found|..] == next[|found|..] + infos[|next|..];
  }

  /** Binding a pattern adds the names its analysis found, in order. */
  lemma {:induction false} BindTabled(
    s: State, p: Pattern, place: Place, t: Type, found: seq<BindingInfo>, table: Table)
    requires AnalyzeNode(t, p, found).Some? && Open(s) && Tabled(s.locals, table)
    ensures var infos := AnalyzeNode(t, p, found).value.bindings;
            found <= infos && Tabled(EmitBind(s, p, place).locals, table + Fresh(found, infos))
    decreases p
  {
    AnalysisExtends(t, p, found);
    match p
    case Wildcard => assert table + [] == table;
    case Binding(x) =>
      var u := EmitBind(s, p, place);
      assert LocalNames(u.locals) == LocalNames(s.locals) + [x];
      assert NamesIn(table + [TypedName(x, t)]) == NamesIn(table) + [x];
      assert Fresh(found, found + [BindingInfo(x, t)]) == [TypedName(x, t)];
    case StructPattern(fields) => BindFieldsTabled(s, fields, 0, place, t, found, table);
    case EnumPattern(tag, payloads) =>
      BindPayloadsTabled(s, payloads, 0, place, tag, t.constructors[tag].payloads, found, table);
  }

  lemma {:induction false} BindFieldsTabled(
    s: State, fields: seq<FieldPattern>, i: nat, place: Place, t: Type, found: seq<BindingInfo>, table: Table)
    requires t.StructType? && AnalyzeFields(t, fields, i, found).Some? && Open(s) && Tabled(s.locals, table)
    ensures var infos := AnalyzeFields(t, fields, i, found).value.0;
            found <= infos && Tabled(EmitBindFields(s, fields, i, place).locals, table + Fresh(found, infos))
    decreases fields, |fields| - i
  {
    hide EmitBindField, Touches, AnalyzeField, Tabled, Fresh;
    FieldsExtend(t, fields, i, found);
    if i < |fields| {
      var s1 := EmitBindField(s, fields[i], place);
      BindFieldTabled(s, fields[i], place, t, found, table);
      EmitBindFieldFrame(s, fields[i], place);
      var next := AnalyzeField(t, fields[i], found).value.bindings;
      BindFieldsTabled(s1, fields, i + 1, place, t, next, table + Fresh(found, next));
      FreshThrough(table, found, next, AnalyzeFields(t, fields, i, found).value.0);
    } else {
      NothingFresh(table, found);
    }
  }

  lemma NothingFresh(table: Table, found: seq<BindingInfo>)
    ensures table + Fresh(found, found) == table
  {
  }

  lemma {:induction false} BindFieldTabled(
    s: State, f: FieldPattern, place: Place, t: Type, found: seq<BindingInfo>, table: Table)
    requires t.StructType? && AnalyzeField(t, f, found).Some? && Open(s) && Tabled(s.locals, table)
    ensures var infos := AnalyzeField(t, f, found).value.bindings;
            found <= infos && Tabled(EmitBindField(s, f, place).locals, table + Fresh(found, infos))
    decreases f
  {
    BindTabled(s, f.pattern, FieldPlace(place, f.index), t.fields[f.index], found, table);
  }

  lemma {:induction false} BindPayloadsTabled(
    s: State, payloads: seq<Pattern>, i: nat, place: Place, tag: nat, ts: seq<Type>, found: seq<BindingInfo>,
    table: Table)
    requires |ts| == |payloads| && AnalyzePayloads(ts, payloads, i, found).Some? && Open(s) && Tabled(s.locals, table)
    ensures var infos := AnalyzePayloads(ts, payloads, i, found).value.0;
            found <= infos && Tabled(EmitBindPayloads(s, payloads, i, place, tag).locals, table + Fresh(found, infos))
    decreases payloads, |payloads| - i
  {
    hide EmitBind, Touches, AnalyzeNode, ExtractPayload, Tabled, Fresh;
    PayloadsExtend(ts, payloads, i, found);
    if i < |payloads| {
      var s0, q := ExtractPayload(s, place, tag, i), Place(Cells(s), []);
      var s1 := EmitBind(s0, payloads[i], q);
      ExtractFrame(s, place, tag, i);
      BindTabled(s0, payloads[i], q, ts[i], found, table);
      EmitBindFrame(s0, payloads[i], q);
      var next := AnalyzeNode(ts[i], payloads[i], found).value.bindings;
      BindPayloadsTabled(s1, payloads, i + 1, place, tag, ts, next, table + Fresh(found, next));
      FreshThrough(table, found, next, AnalyzePayloads(ts, payloads, i, found).value.0);
    } else {
      NothingFresh(table, found);
    }
  }

  // ----- statements -----

  /** Emission went through, reports the path rightly, and left this table. */
  predicate Placed(r: Lowered, ends: bool, table: Table) {
    r.Lowered? && (r.terminated <==> ends) && (Open(r.s) <==> !ends) && Tabled(r.s.locals, table)
  }

  /** A settled statement emits. */
  lemma {:induction false} StatementEmits(stmt: Stmt, table: Table, output: Option<Type>, s: State, pops: bool)
    requires Open(s) && Tabled(s.locals, table) && ElaborateStatement(stmt, table, output, pops).Some?
    ensures Placed(EmitStatement(s, ElaborateStatement(stmt, table, output, pops).value, output.Some?, pops),
                   Ends(stmt), table + Left(stmt, pops))
    decreases stmt, 2
  {
    hide Elaborate, ElaborateFrom, EmitExpr, EmitFrom, Touches, Tabled, Open, Coerced, TypeAt, LeftFrom, EmitDispatch;
    hide EmitArms;
    hide ElaborateScrutinee, ElaborateCondition, ElaborateCases, Analyzed, JoinArms, Cells;
    assert table + [] == table;
    match stmt
    case Declare(_, _, _) => DeclareEmits(stmt, table, output, s, pops);
    case Assign(_, _) => AssignEmits(stmt, table, output, s, pops);
    case Return(_) => ReturnEmits(stmt, table, output, s, pops);
    case If(_, _, _) => IfEmits(stmt, table, output, s, pops);
    case While(_, _) => WhileEmits(stmt, table, output, s, pops);
    case Unsafe(body) =>
      BlockEmits(body, table, output, s, pops);
      LeftTabled(body, table, s, EmitFrom(s, ElaborateFrom(body, 0, table, output, pops).value, 0, output.Some?,
                                          pops).s, pops);
      KeptOpen(s, EmitFrom(s, ElaborateFrom(body, 0, table, output, pops).value, 0, output.Some?, pops).s, pops);
    case Match(_, _, _) => MatchEmits(stmt, table, output, s, pops);
  }

  lemma DeclareEmits(stmt: Stmt, table: Table, output: Option<Type>, s: State, pops: bool)
    requires Open(s) && Tabled(s.locals, table) && stmt.Declare?
    ensures Placed(EmitStatement(s, stmt, output.Some?, pops), false, table + Left(stmt, pops))
  {
    var t := AddLocal(s, stmt.name);
    assert LocalNames(t.locals) == LocalNames(s.locals) + [stmt.name];
    assert NamesIn(table + [TypedName(stmt.name, stmt.declared)]) == NamesIn(table) + [stmt.name];
  }

  lemma AssignEmits(stmt: Stmt, table: Table, output: Option<Type>, s: State, pops: bool)
    requires stmt.Assign? && Open(s) && Tabled(s.locals, table) && ElaborateStatement(stmt, table, output, pops).Some?
    ensures Placed(EmitStatement(s, ElaborateStatement(stmt, table, output, pops).value, output.Some?, pops),
                   false, table)
  {
    hide Elaborate, EmitExpr, Touches;
    var t := TypeAt(table, stmt.name).value;
    SettledEmits(stmt.value, Some(t), table, s);
    CoercedEmits(Elaborate(stmt.value, Some(t), table), t, s);
  }

  lemma ReturnEmits(stmt: Stmt, table: Table, output: Option<Type>, s: State, pops: bool)
    requires stmt.Return? && Open(s) && Tabled(s.locals, table) && ElaborateStatement(stmt, table, output, pops).Some?
    ensures Placed(EmitStatement(s, ElaborateStatement(stmt, table, output, pops).value, output.Some?, pops),
                   true, table)
  {
    hide Elaborate, EmitExpr, Touches;
    if stmt.result.Some? {
      SettledEmits(stmt.result.value, output, table, s);
      CoercedEmits(Elaborate(stmt.result.value, output, table), output.value, s);
    }
  }

  /** What a nested block leaves in the table. */
  lemma LeftTabled(block: seq<Stmt>, table: Table, s: State, t: State, pops: bool)
    requires Tabled(s.locals, table) && Tabled(t.locals, table + LeftFrom(block, 0, pops))
    ensures Tabled(LeaveBlock(s, t, pops).locals, table + LeftBy(block, pops))
  {
    hide LeftFrom;
    assert table + [] == table;
  }

  lemma KeptOpen(s: State, t: State, pops: bool)
    ensures Open(LeaveBlock(s, t, pops)) == Open(t)
  {
  }

  lemma {:induction false} BlockEmits(block: seq<Stmt>, table: Table, output: Option<Type>, s: State, pops: bool)
    requires Open(s) && Tabled(s.locals, table) && ElaborateFrom(block, 0, table, output, pops).Some?
    ensures var r := EmitFrom(s, ElaborateFrom(block, 0, table, output, pops).value, 0, output.Some?, pops);
            Placed(r, EndsFrom(block, 0), table + LeftFrom(block, 0, pops)) && Flow(s, r.s, r.terminated)
    decreases block, |block| + 1
  {
    hide ElaborateFrom, EmitFrom, Tabled, Touches, LeftFrom, EndsFrom;
    var core := ElaborateFrom(block, 0, table, output, pops).value;
    assert core[0..] == core;
    FromEmits(block, 0, core, table, output, s, pops);
    EmitFromFrame(s, core, 0, output.Some?, pops);
  }

  lemma {:induction false} FromEmits(
    block: seq<Stmt>, i: nat, core: seq<Stmt>, table: Table, output: Option<Type>, s: State, pops: bool)
    requires Open(s) && Tabled(s.locals, table)
    requires i <= |block| == |core| && ElaborateFrom(block, i, table, output, pops) == Some(core[i..])
    ensures Placed(EmitFrom(s, core, i, output.Some?, pops), EndsFrom(block, i), table + LeftFrom(block, i, pops))
    decreases block, |block| - i
  {
    hide ElaborateStatement, EmitStatement, Tabled, Open, Left, Ends;
    if i < |block| {
      StatementEmits(block[i], table, output, s, pops);
      assert core[i] == core[i..][0] && core[i + 1..] == core[i..][1..];
      var next, rest := Left(block[i], pops), LeftFrom(block, i + 1, pops);
      if Ends(block[i]) {
        assert next + [] == next;
      } else {
        FromEmits(block, i + 1, core, table + next, output, EmitStatement(s, core[i], output.Some?, pops).s, pops);
        assert table + next + rest == table + (next + rest);
      }
    } else {
      assert table + [] == table;
    }
  }

  lemma ConditionEmits(c: Expr, table: Table, s: State)
    requires ElaborateCondition(c, table).Some? && Tabled(s.locals, table) && Open(s)
    ensures var r := EmitExpr(s, ElaborateCondition(c, table).value);
            r.Emitted? && Open(r.s) && r.s.locals == s.locals && Plain(s, r.s)
  {
    hide Elaborate, EmitExpr, Tabled, Touches;
    SettledEmits(c, None, table, s);
  }

  /** Once a settled statement is lowered, its path report follows from the shared termination rule. */
  lemma LoweredPlaced(s: State, stmt: Stmt, core: Stmt, table: Table, output: Option<Type>, pops: bool, after: Table)
    requires ElaborateStatement(stmt, table, output, pops) == Some(core)
    requires EmitStatement(s, core, output.Some?, pops).Lowered?
    requires Tabled(EmitStatement(s, core, output.Some?, pops).s.locals, after)
    ensures Placed(EmitStatement(s, core, output.Some?, pops), Ends(stmt), after)
  {
    hide ElaborateStatement, EmitStatement, Tabled, Touches, Ends;
    SettledEnds(stmt, table, output, pops);
    EmissionEnds(s, core, output.Some?, pops);
    EmitStatementFrame(s, core, output.Some?, pops);
    var r := EmitStatement(s, core, output.Some?, pops);
    FlowReports(s, r.s, r.terminated);
  }

  lemma {:induction false} IfEmits(stmt: Stmt, table: Table, output: Option<Type>, s: State, pops: bool)
    requires stmt.If? && Open(s) && Tabled(s.locals, table) && ElaborateStatement(stmt, table, output, pops).Some?
    ensures Placed(EmitStatement(s, ElaborateStatement(stmt, table, output, pops).value, output.Some?, pops),
                   Ends(stmt), table + Left(stmt, pops))
    decreases stmt, 1
  {
    hide Elaborate, ElaborateCondition, ElaborateFrom, EmitExpr, EmitFrom, Touches, Tabled, LeftFrom, OpenIf, JoinIf;
    hide JoinArms;
    hide Open, EndsFrom, LeftBy;
    var core := ElaborateStatement(stmt, table, output, pops).value;
    ConditionEmits(stmt.condition, table, s);
    var c := EmitExpr(s, core.condition);
    var u := OpenIf(c.s, c.a);
    OpenIfFrame(c.s, c.a);
    BlockEmits(stmt.thenBlock, table, output, u, pops);
    var y := EmitFrom(u, core.thenBlock, 0, output.Some?, pops);
    var z := Position(LeaveBlock(c.s, y.s, pops), |c.s.blocks| + 1);
    IfElseAt(c.s, c.a, y.s, y.terminated, z);
    LeftTabled(stmt.thenBlock, table, c.s, y.s, pops);
    var half := table + LeftBy(stmt.thenBlock, pops);
    BlockEmits(stmt.elseBlock, half, output, z, pops);
    var n := EmitFrom(z, core.elseBlock, 0, output.Some?, pops);
    IfLeft(stmt, table, c.s, n.s, pops);
    JoinIfIsJoinArms(LeaveBlock(c.s, n.s, pops), ExitOf(y), ExitOf(n));
    JoinArmsLocals(LeaveBlock(c.s, n.s, pops), [ExitOf(y), ExitOf(n)]);
    LoweredPlaced(s, stmt, core, table, output, pops, table + Left(stmt, pops));
  }

  lemma IfLeft(stmt: Stmt, table: Table, s: State, t: State, pops: bool)
    requires stmt.If? && Tabled(s.locals, table)
    requires Tabled(t.locals, table + LeftBy(stmt.thenBlock, pops) + LeftFrom(stmt.elseBlock, 0, pops))
    ensures Tabled(LeaveBlock(s, t, pops).locals, table + Left(stmt, pops))
  {
    hide LeftFrom;
    assert table + [] == table;
    if !pops {
      assert table + LeftBy(stmt.thenBlock, pops) + LeftFrom(stmt.elseBlock, 0, pops) == table + Left(stmt, pops);
    }
  }

  lemma {:induction false} WhileEmits(stmt: Stmt, table: Table, output: Option<Type>, s: State, pops: bool)
    requires stmt.While? && Open(s) && Tabled(s.locals, table) && ElaborateStatement(stmt, table, output, pops).Some?
    ensures Placed(EmitStatement(s, ElaborateStatement(stmt, table, output, pops).value, output.Some?, pops),
                   Ends(stmt), table + Left(stmt, pops))
    decreases stmt, 1
  {
    hide Elaborate, ElaborateCondition, ElaborateFrom, EmitExpr, EmitFrom, Touches, Tabled, LeftFrom, OpenWhile;
    hide CloseWhile;
    hide Open, EndsFrom;
    var core := ElaborateStatement(stmt, table, output, pops).value;
    OpenWhileFrame(s);
    ConditionEmits(stmt.condition, table, OpenWhile(s));
    var c := EmitExpr(OpenWhile(s), core.condition);
    WhileBodyFrame(s, c.s, c.a);
    var entry := LoopBody(s, c.s, c.a);
    BlockEmits(stmt.body, table, output, entry, pops);
    var b := EmitFrom(entry, core.body, 0, output.Some?, pops);
    LeftTabled(stmt.body, table, s, b.s, pops);
    CloseWhileIs(s, Lowered(LeaveBlock(s, b.s, pops), b.terminated));
    LoweredPlaced(s, stmt, core, table, output, pops, table + Left(stmt, pops));
  }

  lemma CloseWhileIs(s: State, b: Lowered)
    requires b.Lowered?
    ensures CloseWhile(s, b).Lowered? && CloseWhile(s, b).s.locals == b.s.locals
  {
  }

  // ----- matches -----

  lemma {:induction false} DispatchEmits(
    s: State, t: Type, cases: seq<Case>, i: nat, base: nat, storage: nat, tag: Option<Operand>)
    requires Analyzed(t, cases) && (t.EnumType? ==> tag.Some?) && Open(s) && 0 < base && base + |cases| <= |s.blocks|
    ensures EmitDispatch(s, t, cases, i, base, storage, tag).Some?
    decreases |cases| - i
  {
    hide AnalyzeNode, EmitCondition, Dispatched, Lowering.Define, Open, Plain;
    if i < |cases| {
      var p := cases[i].pattern;
      assert Analyze(t, p).Some?;
      if Analyze(t, p).value.tag.Some? {
        TagInRange(t, p);
      }
      match DispatchOf(Analyze(t, p).value)
      case Always =>
      case ByTag(k) =>
        var i1 := ICmp(s.registers, EQ, tag.value, Constant(Bits(64, k)));
        DefineFrame(s, i1);
        var s1 := Lowering.Define(s, i1);
        DispatchedFrame(s1, Register(s.registers), base + i);
        GrownDispatch(s, s1, Register(s.registers), base + i);
        DispatchEmits(Dispatched(s1, Register(s.registers), base + i), t, cases, i + 1, base, storage, tag);
      case ByTest =>
        EmitConditionFrame(s, p, Place(storage, []));
        var r := EmitCondition(s, p, Place(storage, []));
        PlainGrown(s, r.s);
        DispatchedFrame(r.s, r.a, base + i);
        GrownDispatch(s, r.s, r.a, base + i);
        DispatchEmits(Dispatched(r.s, r.a, base + i), t, cases, i + 1, base, storage, tag);
    }
  }

  lemma PlainGrown(s: State, t: State)
    requires Plain(s, t)
    ensures |s.blocks| <= |t.blocks|
  {
  }

  lemma GrownDispatch(s: State, t: State, c: Operand, arm: nat)
    requires |s.blocks| <= |t.blocks|
    ensures |s.blocks| <= |Dispatched(t, c, arm).blocks|
  {
  }

  lemma {:induction false} ArmsEmit(
    t: Type, cases: seq<Case>, i: nat, core: seq<Case>, table: Table, output: Option<Type>, s: State, base: nat,
    storage: nat, pops: bool)
    requires i <= |cases| == |core| && Waiting(s, base + i, |cases| - i) && Tabled(s.locals, table)
    requires ElaborateCases(cases, i, t, table, output, pops) == Some(core[i..])
    ensures EmitArms(s, core, i, base, storage, output.Some?, pops).Arms?
    decreases cases, |cases| - i
  {
    hide AnalyzeNode, ElaborateCase, EmitArm, Tabled, Waiting, Touches;
    if i < |cases| {
      assert core[i] == core[i..][0] && core[i + 1..] == core[i..][1..];
      var s0 := Position(s, base + i);
      WaitingOpen(s, base + i, |cases| - i);
      ArmEmits(t, cases[i], table, output, s0, storage, pops);
      ArmStates(s, core, i, base, storage, output.Some?, pops);
      ArmsEmit(t, cases, i + 1, core, table, output, EmitArm(s0, core[i], storage, output.Some?, pops).s, base,
               storage, pops);
    }
  }

  lemma WaitingOpen(s: State, lo: nat, n: nat)
    requires Waiting(s, lo, n) && n > 0
    ensures Open(Position(s, lo)) && Position(s, lo).locals == s.locals
  {
  }

  lemma {:induction false} ArmEmits(
    t: Type, c: Case, table: Table, output: Option<Type>, s: State, storage: nat, pops: bool)
    requires Open(s) && Tabled(s.locals, table) && ElaborateCase(c, t, table, output, pops).Some?
    ensures EmitArm(s, ElaborateCase(c, t, table, output, pops).value, storage, output.Some?, pops).Lowered?
    decreases c
  {
    hide AnalyzeNode, ElaborateFrom, EmitBind, EmitFrom, Tabled, Touches, Entries;
    var infos := Analyze(t, c.pattern).value.bindings;
    var u := EmitBind(s, c.pattern, Place(storage, []));
    BindTabled(s, c.pattern, Place(storage, []), t, [], table);
    assert infos[0..] == infos;
    EmitBindFrame(s, c.pattern, Place(storage, []));
    BlockEmits(c.body, table + Entries(infos), output, u, pops);
  }

  lemma {:induction false} MatchEmits(stmt: Stmt, table: Table, output: Option<Type>, s: State, pops: bool)
    requires stmt.Match? && Open(s) && Tabled(s.locals, table) && ElaborateStatement(stmt, table, output, pops).Some?
    ensures Placed(EmitStatement(s, ElaborateStatement(stmt, table, output, pops).value, output.Some?, pops),
                   Ends(stmt), table + Left(stmt, pops))
    decreases stmt, 1
  {
    hide ElaborateCases, EmitExpr, EmitDispatch, EmitArms, Elaborate, ElaborateScrutinee, Touches, Tabled, OpenMatch;
    hide JoinArms;
    hide AnalyzeNode, Waiting, Plain, Open;
    var core := ElaborateStatement(stmt, table, output, pops).value;
    var t, cases := core.matched, core.cases;
    ScrutineeEmits(stmt.scrutinee, table, s);
    var c := EmitExpr(s, core.scrutinee);
    assert cases[0..] == cases;
    CasesEndToo(stmt.cases, 0, t, cases, table, output, pops);
    var u, base := OpenMatch(c.s, t, c.a, |cases|), |c.s.blocks|;
    MatchOpens(c.s, t, c.a, |cases|);
    DispatchEmits(u, t, cases, 0, base, Cells(c.s), MatchTag(c.s, t));
    var d := EmitDispatch(u, t, cases, 0, base, Cells(c.s), MatchTag(c.s, t)).value;
    EmitDispatchFrame(u, t, cases, 0, base, Cells(c.s), MatchTag(c.s, t));
    WaitingAfter(u, d, {}, base, |cases|);
    ArmsEmit(t, stmt.cases, 0, cases, table, output, d, base, Cells(c.s), pops);
    EmitArmsLocals(d, cases, 0, base, Cells(c.s), output.Some?, pops);
    var a := EmitArms(d, cases, 0, base, Cells(c.s), output.Some?, pops);
    JoinArmsLocals(a.s, a.exits);
    assert table + Left(stmt, pops) == table;
    LoweredPlaced(s, stmt, core, table, output, pops, table);
  }

  lemma ScrutineeEmits(scrutinee: Expr, table: Table, s: State)
    requires ElaborateScrutinee(scrutinee, table).Elaborated? && Tabled(s.locals, table) && Open(s)
    ensures var r := EmitExpr(s, ElaborateScrutinee(scrutinee, table).e);
            r.Emitted? && Open(r.s) && r.s.locals == s.locals
  {
    hide Elaborate, EmitExpr, Tabled, Touches;
    var t := ExprTypeOf(scrutinee, table);
    SettledEmits(scrutinee, t, table, s);
    CoercedEmits(Elaborate(scrutinee, t, table), t.value, s);
  }

  lemma MatchOpens(s: State, t: Type, a: Operand, n: nat)
    requires Open(s)
    ensures var u := OpenMatch(s, t, a, n);
            && Open(u) && u.locals == s.locals && |u.blocks| == |s.blocks| + n && Waiting(u, |s.blocks|, n)
            && !(|s.blocks| <= u.at < |s.blocks| + n)
  {
    hide OpenMatch, Touches, Waiting;
    OpenMatchFrame(s, t, a, n);
    OpenMember(s, OpenMatch(s, t, a, n), {s.at} + Ids(|s.blocks|, n));
    ArmsWait(s, t, a, n);
  }

  // ----- whole functions -----

  lemma {:induction false} ParametersTabled(s: State, parameters: seq<Parameter>, i: nat)
    requires Open(s) && i <= |parameters| && Tabled(s.locals, ParameterTable(parameters)[..i])
    ensures var u := StoreParameters(s, ParameterNames(parameters), i);
            Open(u) && Tabled(u.locals, ParameterTable(parameters))
    decreases |parameters| - i
  {
    var table := ParameterTable(parameters);
    if i == |parameters| {
      assert table[..i] == table;
    } else {
      var s1 := Put(AddLocal(s, parameters[i].name), Store(Cells(s), Register(i)));
      assert LocalNames(s1.locals) == LocalNames(s.locals) + [parameters[i].name];
      assert NamesIn(table[..i + 1]) == NamesIn(table[..i]) + [parameters[i].name];
      ParametersTabled(s1, parameters, i + 1);
    }
  }

  /**
   The compiler refuses a function for its types, or because it promises a result and has a path that does not
   return one; emission fails for no other reason.
   */
  lemma CompilesIff(parameters: seq<Parameter>, body: seq<Stmt>, output: Option<Type>, pops: bool)
    ensures Compile(parameters, body, output, pops).Some?
            <==> ElaborateFunction(parameters, body, output, pops).Some? && (output.None? || EndsFrom(body, 0))
  {
    hide ElaborateFrom, EmitFrom, StoreParameters, Tabled, Touches, EndsFrom, LeftFrom;
    if ElaborateFunction(parameters, body, output, pops).Some? {
      var s0 := StartFunction(|parameters|);
      assert Tabled(s0.locals, ParameterTable(parameters)[..0]) by { NothingTabled(s0.locals,
                                                                                   ParameterTable(parameters)[..0]); }
      ParametersTabled(s0, parameters, 0);
      var s := StoreParameters(s0, ParameterNames(parameters), 0);
      BlockEmits(body, ParameterTable(parameters), output, s, pops);
    }
  }

  lemma NothingTabled(locals: seq<Local>, table: Table)
    requires locals == [] && table == []
    ensures Tabled(locals, table)
  {
  }
}
