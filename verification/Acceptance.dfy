/**
 Which accepted functions compile. Acceptance alone does not suffice: the checker lets an integer stand for a truth
 value, lets literals settle their own types, and forgets a nested block's names; the emitter does none of these.
 */
module Acceptance {
  import opened Integers
  import opened Options
  import opened Syntax
  import opened Source
  import opened Lowering
  import opened FunctionSimulation
  import opened Termination
  import opened Hygiene
  import opened Checker
  import opened CheckerFlow
  import opened Elaboration
  import opened Suitability
  import opened Leftovers
  import opened Compilation

  /** An accepted function is refused for its types only: no path of it ends without a promised result. */
  lemma AcceptedCompilesIff(parameters: seq<Parameter>, body: seq<Stmt>, output: Option<Type>, pops: bool)
    requires CheckFunction(parameters, body, output) == None
    ensures Compile(parameters, body, output, pops).Some? <==> ElaborateFunction(parameters, body, output, pops).Some?
  {
    hide CheckBlock, ElaborateFunction, EndsFrom, Compile;
    BlockFalls(body, ParameterLocals(parameters), 0, output);
    CompilesIff(parameters, body, output, pops);
  }

  /**
   Unless a leftover of an incompatible type is used, an accepted function compiles exactly if its conditions and
   logical operands are boolean and every literal finds its type.
   */
  lemma CompatibleCompilesIff(parameters: seq<Parameter>, body: seq<Stmt>, output: Option<Type>)
    requires CheckFunction(parameters, body, output) == None && LeftoversCompatible(parameters, body, false)
    ensures Compile(parameters, body, output, false).Some? <==> SuitsFunction(parameters, body)
  {
    hide CheckFunction, ElaborateFunction, Compile, LeftoversCompatible, SuitsFunction;
    AcceptedCompilesIff(parameters, body, output, false);
    ElaborationsMatched(parameters, body, output, false);
    AcceptedElaborates(parameters, body, output);
  }

  /** Without stale names the compiler emits the body as the checker typed it, or refuses it. */
  lemma StaleFreeCompiles(parameters: seq<Parameter>, body: seq<Stmt>, output: Option<Type>, pops: bool)
    requires CheckFunction(parameters, body, output) == None && StaleFree(body)
    ensures ElaborateFunction(parameters, body, output, pops)
            == if SuitsFunction(parameters, body) then Some(body) else None
    ensures Compile(parameters, body, output, pops).Some? <==> SuitsFunction(parameters, body)
    ensures SuitsFunction(parameters, body) ==>
              Compile(parameters, body, output, pops) == EmitFunction(ParameterNames(parameters), body,
                                                                      output.Some?, pops)
  {
    hide CheckFunction, ElaborateFunction, StaleFree, LeftoversCompatible, SuitsFunction, EmitFunction;
    AcceptedCompilesIff(parameters, body, output, pops);
    StaleFreeCompatible(parameters, body);
    ElaborationsMatched(parameters, body, output, true);
    AcceptedElaborates(parameters, body, output);
  }

  /**
   The compiler types and emits an accepted function as scoped names would have it exactly if it uses no stale name.
   */
  lemma CompilationsEqualIff(parameters: seq<Parameter>, body: seq<Stmt>, output: Option<Type>)
    requires CheckFunction(parameters, body, output) == None && SuitsFunction(parameters, body)
    ensures ElaborateFunction(parameters, body, output, false) == ElaborateFunction(parameters, body, output, true)
            && Compile(parameters, body, output, false) == Compile(parameters, body, output, true)
            <==> StaleFree(body)
  {
    hide CheckFunction, ElaborateFunction, StaleFree, SuitsFunction, EmitFunction;
    AcceptedCompilesIff(parameters, body, output, true);
    AcceptedElaborates(parameters, body, output);
    var names := ParameterNames(parameters);
    if StaleFree(body) {
      StaleFreeCompiles(parameters, body, output, false);
      EmissionsEqualIff(names, body, output.Some?);
    } else if EmitFunction(names, body, output.Some?, false).Some? {
      EmissionsEqualIff(names, body, output.Some?);
    }
  }

  // ----- accepted functions that are refused -----

  const WORD := IntType(32, false)

  const NUMBER := Parameter("x", IntegerType(WORD), false)
  const TRUTH := Parameter("c", BooleanType, true)
  const OTHER := Parameter("d", BooleanType, true)

  /** Branches on a number. */
  function NumberBranch(): seq<Stmt> {
    [If(Read("x", []), [], [])]
  }

  /** The checker lets a number be a condition; the emitter refuses it. */
  lemma NumberBranchRefused()
    ensures CheckFunction([NUMBER], NumberBranch(), None) == None
    ensures !SuitsFunction([NUMBER], NumberBranch())
    ensures Compile([NUMBER], NumberBranch(), None, false) == None
  {
    var locals, table := ParameterLocals([NUMBER]), ParameterTable([NUMBER]);
    var stmt := NumberBranch()[0];
    assert NamesOf(locals) == ["x"] && NamesIn(table) == ["x"] && Newest(["x"], "x") == Some(0);
    assert TypeOf(Read("x", []), locals) == Typed(IntegerType(WORD));
    assert CheckBlock([], locals, 1, None).Accepted?;
    assert CheckStatement(stmt, locals, 1, None).Accepted?;
    assert CheckFrom(NumberBranch(), 0, locals, 1, None).Accepted?;
    assert ElaborateCondition(Read("x", []), table) == None;
    assert ElaborateStatement(stmt, table, None, false) == None;
    assert !SuitsStatement(stmt, table);
  }

  /** Compares two literals. */
  function LiteralBranch(): seq<Stmt> {
    [If(Compare(Equal, WORD, IntLiteral(WORD, 1), IntLiteral(WORD, 2)), [], [])]
  }

  /** The checker types a literal by itself; the emitter finds no type to compare two of them at. */
  lemma LiteralBranchRefused()
    ensures CheckFunction([], LiteralBranch(), None) == None
    ensures !SuitsFunction([], LiteralBranch())
    ensures Compile([], LiteralBranch(), None, false) == None
  {
    hide CheckFunction, SuitsFunction, ElaborateFunction, LiteralBranch;
    LiteralBranchChecks();
    LiteralBranchTypes();
  }

  lemma LiteralBranchChecks()
    ensures CheckFunction([], LiteralBranch(), None) == None
  {
    hide Pow2;
    var stmt := LiteralBranch()[0];
    assert InRange(1, WORD) && InRange(2, WORD) by { WordHolds(); }
    assert TypeOf(stmt.condition, []) == Typed(BooleanType);
    assert CheckBlock([], [], 1, None).Accepted?;
    assert CheckStatement(stmt, [], 1, None).Accepted?;
    assert CheckFrom(LiteralBranch(), 0, [], 1, None).Accepted?;
  }

  lemma WordHolds()
    ensures InRange(1, WORD) && InRange(2, WORD)
  {
    assert Pow2(2) == 4;
    Pow2Monotone(2, 32);
  }

  lemma LiteralBranchTypes()
    ensures !SuitsFunction([], LiteralBranch()) && ElaborateFunction([], LiteralBranch(), None, false) == None
  {
    var stmt := LiteralBranch()[0];
    assert ElaborateCondition(stmt.condition, []) == None;
    assert ElaborateStatement(stmt, [], None, false) == None;
    assert !SuitsStatement(stmt, []);
  }

  /** An inner block declares the number `c`; the outer truth value `c` is then a condition. */
  function HiddenCondition(): seq<Stmt> {
    [Unsafe(InnerNumber()), If(Read("c", []), [], [])]
  }

  function InnerNumber(): seq<Stmt> {
    [Declare("c", IntegerType(WORD), true)]
  }

  /** The leftover number is found for the condition, and an accepted function that suits is refused. */
  lemma HiddenConditionRefused()
    ensures CheckFunction([TRUTH], HiddenCondition(), None) == None && SuitsFunction([TRUTH], HiddenCondition())
    ensures !LeftoversCompatible([TRUTH], HiddenCondition(), false)
    ensures Compile([TRUTH], HiddenCondition(), None, true).Some?
    ensures Compile([TRUTH], HiddenCondition(), None, false) == None
  {
    hide LeftoversCompatible, SuitsFunction, Compile;
    HiddenConditionChecks();
    HiddenConditionTypes();
    AcceptedElaborates([TRUTH], HiddenCondition(), None);
    AcceptedCompilesIff([TRUTH], HiddenCondition(), None, true);
    AcceptedCompilesIff([TRUTH], HiddenCondition(), None, false);
    if LeftoversCompatible([TRUTH], HiddenCondition(), false) {
      CompatibleCompilesIff([TRUTH], HiddenCondition(), None);
    }
  }

  lemma HiddenConditionChecks()
    ensures CheckFunction([TRUTH], HiddenCondition(), None) == None && SuitsFunction([TRUTH], HiddenCondition())
  {
    var body, locals, table := HiddenCondition(), ParameterLocals([TRUTH]), ParameterTable([TRUTH]);
    var inner := locals + [CheckedLocal("c", IntegerType(WORD), true, Uninitialized, 2)];
    assert NamesOf(locals) == ["c"] && NamesIn(table) == ["c"] && Newest(["c"], "c") == Some(0);
    assert CheckStatement(InnerNumber()[0], locals, 2, None) == Accepted(inner, true);
    assert CheckFrom(InnerNumber(), 1, inner, 2, None) == Accepted(inner, true);
    assert inner[..1] == locals;
    assert CheckBlock(InnerNumber(), locals, 1, None) == Accepted(locals, true);
    assert CheckStatement(body[0], locals, 1, None) == Accepted(locals, true);
    assert TypeOf(Read("c", []), locals) == Typed(BooleanType);
    assert CheckBlock([], locals, 1, None).Accepted?;
    assert CheckStatement(body[1], locals, 1, None).Accepted?;
    assert CheckFrom(body, 1, locals, 1, None).Accepted?;
    assert SuitsFrom(InnerNumber(), 1, table + Left(InnerNumber()[0], true));
    assert SuitsStatement(body[0], table);
    assert table + [] == table;
    assert SuitsStatement(body[1], table);
    assert SuitsFrom(body, 1, table);
  }

  lemma HiddenConditionTypes()
    ensures ElaborateFunction([TRUTH], HiddenCondition(), None, false) == None
  {
    var body, table := HiddenCondition(), ParameterTable([TRUTH]);
    var inner := table + [TypedName("c", IntegerType(WORD))];
    assert Left(InnerNumber()[0], false) == [TypedName("c", IntegerType(WORD))];
    assert LeftFrom(InnerNumber(), 1, false) == [];
    assert Left(body[0], false) == [TypedName("c", IntegerType(WORD))];
    assert NamesIn(inner) == ["c", "c"] && Newest(["c", "c"], "c") == Some(1);
    assert ElaborateCondition(Read("c", []), inner) == None;
    assert ElaborateStatement(body[1], inner, None, false) == None;
    assert ElaborateFrom(body, 1, inner, None, false) == None;
  }

  /** An inner block declares the numbers `c` and `d`; the outer truth value `d` is then assigned to `c`. */
  function HiddenCopy(): seq<Stmt> {
    [Unsafe(InnerNumbers()), Assign("c", Read("d", []))]
  }

  function InnerNumbers(): seq<Stmt> {
    [Declare("c", IntegerType(WORD), true), Declare("d", IntegerType(WORD), true)]
  }

  /** Using leftovers of incompatible types does not always refuse a function: these two agree with each other. */
  lemma HiddenCopyCompiles()
    ensures CheckFunction([TRUTH, OTHER], HiddenCopy(), None) == None
    ensures !LeftoversCompatible([TRUTH, OTHER], HiddenCopy(), false)
    ensures Compile([TRUTH, OTHER], HiddenCopy(), None, false).Some?
  {
    hide LeftoversCompatible, Compile;
    HiddenCopyChecks();
    HiddenCopyTypes();
    HiddenCopyDiffers();
    AcceptedCompilesIff([TRUTH, OTHER], HiddenCopy(), None, false);
  }

  lemma HiddenCopyChecks()
    ensures CheckFunction([TRUTH, OTHER], HiddenCopy(), None) == None
  {
    var body, locals := HiddenCopy(), ParameterLocals([TRUTH, OTHER]);
    var one := locals + [CheckedLocal("c", IntegerType(WORD), true, Uninitialized, 2)];
    var two := one + [CheckedLocal("d", IntegerType(WORD), true, Uninitialized, 2)];
    assert NamesOf(locals) == ["c", "d"];
    assert Newest(["c", "d"], "d") == Some(1);
    assert Newest(["c", "d"], "c") == Some(0) by { assert ["c", "d"][..1] == ["c"] && Newest(["c"], "c") == Some(0); }
    assert CheckStatement(InnerNumbers()[0], locals, 2, None) == Accepted(one, true);
    assert CheckStatement(InnerNumbers()[1], one, 2, None) == Accepted(two, true);
    assert CheckFrom(InnerNumbers(), 2, two, 2, None) == Accepted(two, true);
    assert CheckFrom(InnerNumbers(), 1, one, 2, None) == Accepted(two, true);
    assert CheckFrom(InnerNumbers(), 0, locals, 2, None) == Accepted(two, true);
    assert two[..2] == locals;
    assert CheckStatement(body[0], locals, 1, None) == Accepted(locals, true);
    assert TypeOf(Read("d", []), locals) == Typed(BooleanType);
    assert locals[0 := locals[0].(fact := Initialized)] == locals;
    assert CheckStatement(body[1], locals, 1, None) == Accepted(locals, true);
    assert CheckFrom(body, 2, locals, 1, None).Accepted?;
    assert CheckFrom(body, 1, locals, 1, None).Accepted?;
  }

  /** The table after the inner block: both names are now numbers. */
  lemma InnerNumbersLeft(table: Table, inner: Table)
    requires table == ParameterTable([TRUTH, OTHER])
    requires inner == table + [TypedName("c", IntegerType(WORD)), TypedName("d", IntegerType(WORD))]
    ensures table + Left(HiddenCopy()[0], false) == inner
    ensures TypeAt(inner, "c") == Some(IntegerType(WORD)) && TypeAt(inner, "d") == Some(IntegerType(WORD))
    ensures TypeAt(table, "c") == Some(BooleanType)
  {
    var c, d := TypedName("c", IntegerType(WORD)), TypedName("d", IntegerType(WORD));
    assert LeftFrom(InnerNumbers(), 2, false) == [];
    assert LeftFrom(InnerNumbers(), 1, false) == [d];
    assert LeftFrom(InnerNumbers(), 0, false) == [c, d];
    assert NamesIn(table) == ["c", "d"] && NamesIn(inner) == ["c", "d", "c", "d"];
    assert ["c", "d", "c", "d"][..3] == ["c", "d", "c"] && Newest(["c", "d", "c"], "c") == Some(2);
    assert ["c", "d"][..1] == ["c"] && Newest(["c"], "c") == Some(0);
  }

  lemma HiddenCopyTypes()
    ensures ElaborateFunction([TRUTH, OTHER], HiddenCopy(), None, false).Some?
  {
    hide TypeAt, ParameterTable, LeftFrom;
    var body, table := HiddenCopy(), ParameterTable([TRUTH, OTHER]);
    var c, d := TypedName("c", IntegerType(WORD)), TypedName("d", IntegerType(WORD));
    var inner := table + [c, d];
    InnerNumbersLeft(table, inner);
    assert ElaborateStatement(body[1], inner, None, false).Some?;
    assert ElaborateFrom(body, 2, inner + Left(body[1], false), None, false).Some?;
    assert ElaborateFrom(body, 1, inner, None, false).Some?;
    assert ElaborateFrom(InnerNumbers(), 2, table + [c] + [d], None, false).Some?;
    assert ElaborateFrom(InnerNumbers(), 1, table + [c], None, false).Some?;
    assert ElaborateStatement(body[0], table, None, false).Some?;
  }

  lemma HiddenCopyDiffers()
    ensures !LeftoversCompatible([TRUTH, OTHER], HiddenCopy(), false)
  {
    hide TypeAt, ParameterTable, LeftFrom;
    var body, table := HiddenCopy(), ParameterTable([TRUTH, OTHER]);
    var inner := table + [TypedName("c", IntegerType(WORD)), TypedName("d", IntegerType(WORD))];
    InnerNumbersLeft(table, inner);
    assert Left(body[0], true) == [] && table + [] == table;
    assert "c" in {"c"} + Reads(Read("d", []));
    assert !Compatible(body[1], table, inner, false);
    assert !CompatibleFrom(body, 1, table, inner, false);
  }

  /** An inner block declares the truth value `x`; the outer number `x` is then a condition. */
  function HiddenNumber(): seq<Stmt> {
    [Unsafe(InnerTruth()), If(Read("x", []), [], [])]
  }

  function InnerTruth(): seq<Stmt> {
    [Declare("x", BooleanType, true)]
  }

  /** A leftover can also let a body compile that does not suit: here a number stands for a truth value. */
  lemma HiddenNumberCompiles(v: Value)
    requires IsInteger(v, WORD)
    ensures CheckFunction([NUMBER], HiddenNumber(), None) == None && !SuitsFunction([NUMBER], HiddenNumber())
    ensures ExecFrom(HiddenNumber(), 0, Arguments([NUMBER], [v]), 0) == Undecided
    ensures Compile([NUMBER], HiddenNumber(), None, false).Some?
  {
    hide SuitsFunction, Compile, ExecFrom, CheckFunction, ElaborateFunction;
    HiddenNumberChecks();
    HiddenNumberTypes();
    HiddenNumberRuns(v);
    AcceptedCompilesIff([NUMBER], HiddenNumber(), None, false);
  }

  lemma HiddenNumberChecks()
    ensures CheckFunction([NUMBER], HiddenNumber(), None) == None && !SuitsFunction([NUMBER], HiddenNumber())
  {
    var body, locals, table := HiddenNumber(), ParameterLocals([NUMBER]), ParameterTable([NUMBER]);
    var inner := locals + [CheckedLocal("x", BooleanType, true, Uninitialized, 2)];
    assert NamesOf(locals) == ["x"] && NamesIn(table) == ["x"] && Newest(["x"], "x") == Some(0);
    assert CheckStatement(InnerTruth()[0], locals, 2, None) == Accepted(inner, true);
    assert CheckFrom(InnerTruth(), 1, inner, 2, None) == Accepted(inner, true);
    assert inner[..1] == locals;
    assert CheckBlock(InnerTruth(), locals, 1, None) == Accepted(locals, true);
    assert CheckStatement(body[0], locals, 1, None) == Accepted(locals, true);
    assert TypeOf(Read("x", []), locals) == Typed(IntegerType(WORD));
    assert CheckBlock([], locals, 1, None).Accepted?;
    assert CheckStatement(body[1], locals, 1, None).Accepted?;
    assert CheckFrom(body, 1, locals, 1, None).Accepted?;
    assert table + [] == table;
    assert !SuitsStatement(body[1], table);
    assert !SuitsFrom(body, 1, table);
  }

  lemma HiddenNumberTypes()
    ensures ElaborateFunction([NUMBER], HiddenNumber(), None, false).Some?
  {
    var body, table := HiddenNumber(), ParameterTable([NUMBER]);
    var inner := table + [TypedName("x", BooleanType)];
    assert LeftFrom(InnerTruth(), 1, false) == [];
    assert Left(body[0], false) == [TypedName("x", BooleanType)];
    assert NamesIn(inner) == ["x", "x"] && Newest(["x", "x"], "x") == Some(1);
    assert ElaborateFrom(InnerTruth(), 1, inner, None, false).Some?;
    assert ElaborateStatement(body[0], table, None, false).Some?;
    assert ElaborateCondition(Read("x", []), inner).Some?;
    assert ElaborateStatement(body[1], inner, None, false).Some?;
    assert ElaborateFrom(body, 2, inner + Left(body[1], false), None, false).Some?;
    assert ElaborateFrom(body, 1, inner, None, false).Some?;
  }

  lemma HiddenNumberRuns(v: Value)
    requires IsInteger(v, WORD)
    ensures ExecFrom(HiddenNumber(), 0, Arguments([NUMBER], [v]), 0) == Undecided
  {
    var body, env := HiddenNumber(), Arguments([NUMBER], [v]);
    var inner := env + [Slot("x", BooleanType, None)];
    assert Names(env) == ["x"] && Newest(["x"], "x") == Some(0);
    assert Exec(InnerTruth()[0], env, 0) == Falls(inner);
    assert ExecFrom(InnerTruth(), 1, inner, 0) == Falls(inner);
    assert inner[..1] == env;
    assert Exec(body[0], env, 0) == Falls(env);
    assert Eval(Read("x", []), env) == Yields(v);
    assert Exec(body[1], env, 0) == Undecided;
    assert ExecFrom(body, 1, env, 0) == Undecided;
  }
}
