/** The compiler's own emission: correct for every body without stale names, and wrong for a body with one. */
module Compiled {
  import opened Integers
  import opened Options
  import opened Syntax
  import opened Source
  import opened Machine
  import opened Lowering
  import opened FunctionSimulation
  import opened Hygiene
  import opened Elaboration
  import opened Leftovers
  import opened Compilation

  /** Without stale names the compiler emits the body as scoped names type it. */
  lemma CompiledIsScoped(
    parameters: seq<Parameter>, body: seq<Stmt>, output: Option<Type>, core: seq<Stmt>, g: Graph)
    requires StaleFree(body) && Compile(parameters, body, output, false) == Some(g)
    requires ElaborateFunction(parameters, body, output, true) == Some(core)
    ensures EmitFunction(ParameterNames(parameters), core, output.Some?, true) == Some(g)
  {
    hide EmitFunction, ElaborateFrom, AfterFrom, LeftoversCompatible;
    StaleFreeCompatible(parameters, body);
    ElaborationsMatched(parameters, body, output, true);
    BlockStale(body, ParameterTable(parameters), output, true, {});
    EmissionsEqualIff(ParameterNames(parameters), core, output.Some?);
  }

  /**
   For every body in which no name left over from a nested block is used, a compiled call ends exactly as the
   typed body does, for every argument and every number of loop iterations.
   */
  lemma CompiledCallPreserved(
    parameters: seq<Parameter>, args: seq<Value>, body: seq<Stmt>, output: Option<Type>, core: seq<Stmt>, g: Graph,
    fuel: nat)
    requires |args| == |parameters| && StaleFree(body) && Compile(parameters, body, output, false) == Some(g)
    requires ElaborateFunction(parameters, body, output, true) == Some(core)
    ensures var o := ExecFrom(core, 0, Arguments(parameters, args), fuel);
            && (o.Falls? || o.Returned? || o.Trapped? ==> Stops(g, Entry(args), StatusOf(o)))
            && (o.Timeout? ==> Run(g, Entry(args), fuel).Running?)
  {
    hide EmitFunction, Compile, ElaborateFunction, StaleFree, ExecFrom;
    CompiledIsScoped(parameters, body, output, core, g);
    CallPreserved(parameters, args, core, output.Some?, g, fuel);
  }

  /** And nothing else happens, as long as the typed body never gets stuck and needs no number as a truth value. */
  lemma CompiledCallReflected(
    parameters: seq<Parameter>, args: seq<Value>, body: seq<Stmt>, output: Option<Type>, core: seq<Stmt>, g: Graph,
    status: Status)
    returns (fuel: nat)
    requires |args| == |parameters| && StaleFree(body) && Compile(parameters, body, output, false) == Some(g)
    requires ElaborateFunction(parameters, body, output, true) == Some(core) && Stops(g, Entry(args), status)
    requires forall k: nat :: Decided(ExecFrom(core, 0, Arguments(parameters, args), k))
    ensures var o := ExecFrom(core, 0, Arguments(parameters, args), fuel);
            (o.Falls? || o.Returned? || o.Trapped?) && StatusOf(o) == status
  {
    hide EmitFunction, Compile, ElaborateFunction, StaleFree, ExecFrom;
    CompiledIsScoped(parameters, body, output, core, g);
    fuel := CallReflected(parameters, args, core, output.Some?, g, status);
  }

  // ----- a body with a stale name -----

  const WORD := IntType(32, false)

  /** An inner block declares `x` again; the outer `x` is then returned. */
  function Shadowing(): seq<Stmt> {
    [Unsafe([Declare("x", IntegerType(WORD), false), Assign("x", IntLiteral(WORD, 2))]), Return(Some(Read("x", [])))]
  }

  /** What the compiler emits for it: the return reads the inner cell. */
  function ShadowingGraph(): Graph {
    [Block([Alloca(0), Alloca(1)], Some(Br(1))),
     Block([Store(0, Register(0)), Store(1, Constant(FromInteger(2, WORD))), Load(1, Place(1, []))], Some(Ret(Register(1))))]
  }

  function InnerBlock(): seq<Stmt> {
    [Declare("x", IntegerType(WORD), false), Assign("x", IntLiteral(WORD, 2))]
  }

  /** The builder state after the parameter is stored, and after the inner block. */
  function Entered(): State {
    State([Block([Alloca(0)], None), Block([Store(0, Register(0))], None)], 1, 1, [Local("x", 0)])
  }

  function Inner(): State {
    State([Block([Alloca(0), Alloca(1)], None),
           Block([Store(0, Register(0)), Store(1, Constant(FromInteger(2, WORD)))], None)],
          1, 1, [Local("x", 0), Local("x", 1)])
  }

  lemma ShadowingEnters()
    ensures StoreParameters(StartFunction(1), ["x"], 0) == Entered()
  {
    var s0 := StartFunction(1);
    var s1 := Put(AddLocal(s0, "x"), Store(0, Register(0)));
    assert s1.blocks[0] == Entered().blocks[0] && s1.blocks[1] == Entered().blocks[1];
    assert s1 == Entered();
    assert StoreParameters(s1, ["x"], 1) == s1;
  }

  lemma InnerBlockEmitted()
    ensures EmitStatement(Entered(), Unsafe(InnerBlock()), true, false) == Lowered(Inner(), false)
  {
    hide FromInteger;
    var s2 := AddLocal(Entered(), "x");
    assert EmitStatement(Entered(), InnerBlock()[0], true, false) == Lowered(s2, false);
    assert LocalNames(s2.locals) == ["x", "x"] && Newest(["x", "x"], "x") == Some(1);
    var s3 := Put(s2, Store(1, Constant(FromInteger(2, WORD))));
    assert EmitStatement(s2, InnerBlock()[1], true, false) == Lowered(s3, false);
    assert s3.blocks[0] == Inner().blocks[0] && s3.blocks[1] == Inner().blocks[1];
    assert s3 == Inner();
    assert EmitFrom(s3, InnerBlock(), 2, true, false) == Lowered(s3, false);
    assert EmitFrom(s2, InnerBlock(), 1, true, false) == Lowered(s3, false);
    assert EmitFrom(Entered(), InnerBlock(), 0, true, false) == Lowered(s3, false);
  }

  /** The read finds the leftover entry. */
  lemma ReturnEmitted()
    ensures EmitStatement(Inner(), Return(Some(Read("x", []))), true, false).Lowered?
    ensures EmitStatement(Inner(), Return(Some(Read("x", []))), true, false).terminated
    ensures ConnectEntry(EmitStatement(Inner(), Return(Some(Read("x", []))), true, false).s) == ShadowingGraph()
  {
    hide FromInteger;
    var s := Inner();
    assert LocalNames(s.locals) == ["x", "x"] && Newest(["x", "x"], "x") == Some(1);
    var s4 := Lowering.Define(s, Load(1, Place(1, [])));
    assert EmitExpr(s, Read("x", [])) == Emitted(s4, Register(1));
    var u := End(s4, Ret(Register(1)));
    assert EmitStatement(s, Return(Some(Read("x", []))), true, false) == Lowered(u, true);
    assert ConnectEntry(u)[0] == ShadowingGraph()[0] && ConnectEntry(u)[1] == ShadowingGraph()[1];
    assert ConnectEntry(u) == ShadowingGraph();
  }

  lemma ShadowingEmitted()
    ensures EmitFunction(["x"], Shadowing(), true, false) == Some(ShadowingGraph())
  {
    hide FromInteger, EmitStatement, ShadowingGraph, Inner, Entered, ConnectEntry, InnerBlock, StoreParameters;
    ShadowingEnters();
    InnerBlockEmitted();
    ReturnEmitted();
    ShadowingIs();
    var r := EmitStatement(Inner(), Shadowing()[1], true, false);
    assert EmitFrom(Inner(), Shadowing(), 1, true, false) == r;
    assert EmitFrom(Entered(), Shadowing(), 0, true, false) == r;
  }

  lemma ShadowingIs()
    ensures Shadowing() == [Unsafe(InnerBlock()), Return(Some(Read("x", [])))]
  {
  }

  const OUTER := Parameter("x", IntegerType(WORD), false)

  lemma InnerBlockTyped(pops: bool)
    ensures var outer := [TypedName("x", IntegerType(WORD))];
            && ElaborateFrom(InnerBlock(), 0, outer, Some(IntegerType(WORD)), pops) == Some(InnerBlock())
            && LeftFrom(InnerBlock(), 0, pops) == outer
  {
    var word, outer, block := Some(IntegerType(WORD)), [TypedName("x", IntegerType(WORD))], InnerBlock();
    var inner := outer + outer;
    assert NamesIn(inner) == ["x", "x"] && Newest(["x", "x"], "x") == Some(1);
    assert Elaboration.Left(block[0], pops) == outer && Elaboration.Left(block[1], pops) == [];
    assert ElaborateStatement(block[1], inner, word, pops) == Some(block[1]);
    assert [block[1]] + [] == [block[1]] && [block[0]] + [block[1]] == block;
    assert ElaborateFrom(block, 1, inner, word, pops) == Some([block[1]]);
    assert LeftFrom(block, 1, pops) == [] && outer + [] == outer;
  }

  lemma ReturnTyped(table: Table, pops: bool)
    requires TypeAt(table, "x") == Some(IntegerType(WORD))
    ensures ElaborateStatement(Return(Some(Read("x", []))), table, Some(IntegerType(WORD)), pops)
            == Some(Return(Some(Read("x", []))))
  {
  }

  /** The leftover has the type of the outer name, so both typings agree. */
  lemma ShadowingTyped(pops: bool)
    ensures ElaborateFunction([OUTER], Shadowing(), Some(IntegerType(WORD)), pops) == Some(Shadowing())
  {
    hide ElaborateStatement, LeftFrom, InnerBlock;
    var word, outer := Some(IntegerType(WORD)), [TypedName("x", IntegerType(WORD))];
    var first, last := Unsafe(InnerBlock()), Return(Some(Read("x", [])));
    ShadowingIs();
    assert ParameterTable([OUTER]) == outer;
    InnerBlockTyped(pops);
    assert ElaborateStatement(first, outer, word, pops) == Some(first) by {
      UnsafeTyped(InnerBlock(), outer, word, pops);
    }
    var after := outer + Elaboration.Left(first, pops);
    assert outer + [] == outer;
    assert NamesIn(outer) == ["x"] && NamesIn(outer + outer) == ["x", "x"];
    assert Newest(["x"], "x") == Some(0) && Newest(["x", "x"], "x") == Some(1);
    ReturnTyped(after, pops);
    assert [last] + Shadowing()[2..] == [last] && [first] + [last] == Shadowing();
    assert ElaborateFrom(Shadowing(), 1, after, word, pops) == Some([last]);
  }

  lemma UnsafeTyped(body: seq<Stmt>, table: Table, output: Option<Type>, pops: bool)
    requires ElaborateFrom(body, 0, table, output, pops) == Some(body)
    ensures ElaborateStatement(Unsafe(body), table, output, pops) == Some(Unsafe(body))
  {
  }

  /**
   The hypothesis cannot be dropped: the source returns its argument, the compiled function always returns the
   inner constant.
   */
  lemma ShadowingMiscompiled(v: Value)
    ensures ElaborateFunction([OUTER], Shadowing(), Some(IntegerType(WORD)), true) == Some(Shadowing())
    ensures ExecFrom(Shadowing(), 0, Arguments([OUTER], [v]), 0) == Returned(Some(v))
    ensures Compile([OUTER], Shadowing(), Some(IntegerType(WORD)), false) == Some(ShadowingGraph())
    ensures Stops(ShadowingGraph(), Entry([v]), Finished(Some(FromInteger(2, WORD))))
    ensures !StaleFree(Shadowing())
  {
    hide ExecFrom, EmitFunction, ElaborateFunction, Stops, StaleFree, FromInteger, ShadowingGraph, Shadowing;
    ShadowingTyped(true);
    ShadowingTyped(false);
    assert ParameterNames([OUTER]) == ["x"];
    ShadowingEmitted();
    assert Arguments([OUTER], [v]) == [Slot("x", IntegerType(WORD), Some(v))];
    ShadowingRuns(v);
    ShadowingReturns(v);
    ShadowingIsStale();
  }

  lemma ShadowingIsStale()
    ensures !StaleFree(Shadowing())
  {
    var inner := InnerBlock();
    var none: set<string> := {};
    assert none - {"x"} == none;
    assert AfterFrom(inner, 2, {}) == Some({});
    assert AfterFrom(inner, 1, {}) == Some({});
    assert AfterFrom(inner, 0, {}) == Some({});
    assert DeclaredFrom(inner, 0) == {"x"} + DeclaredFrom(inner, 1);
    assert "x" in AfterBlock(inner, {}).value;
    ShadowingIs();
  }

  lemma ShadowingReturns(v: Value)
    ensures ExecFrom(Shadowing(), 0, [Slot("x", IntegerType(WORD), Some(v))], 0) == Returned(Some(v))
  {
    var env := [Slot("x", IntegerType(WORD), Some(v))];
    var inner := [Declare("x", IntegerType(WORD), false), Assign("x", IntLiteral(WORD, 2))];
    var env1 := env + [Slot("x", IntegerType(WORD), None)];
    assert Exec(inner[0], env, 0) == Falls(env1);
    assert Newest(Names(env1), "x") == Some(1);
    var env2 := env1[1 := Slot("x", IntegerType(WORD), Some(FromInteger(2, WORD)))];
    assert Exec(inner[1], env1, 0) == Falls(env2);
    assert ExecFrom(inner, 2, env2, 0) == Falls(env2);
    assert ExecFrom(inner, 1, env1, 0) == Falls(env2);
    assert ExecFrom(inner, 0, env, 0) == Falls(env2);
    assert env2[..1] == env;
    assert Exec(Unsafe(inner), env, 0) == Falls(env);
    assert Newest(Names(env), "x") == Some(0);
    assert Eval(Read("x", []), env) == Yields(v);
    assert Exec(Shadowing()[1], env, 0) == Returned(Some(v));
    assert ExecFrom(Shadowing(), 1, env, 0) == Returned(Some(v));
  }

  lemma ShadowingRuns(v: Value)
    ensures Stops(ShadowingGraph(), Entry([v]), Finished(Some(FromInteger(2, WORD))))
  {
    var g, w := ShadowingGraph(), FromInteger(2, WORD);
    var c0 := Entry([v]);
    var c1 := c0.(pc := 1, cells := map[0 := None]);
    var c2 := c0.(pc := 2, cells := map[0 := None, 1 := None]);
    var c3 := c2.(block := 1, pc := 0);
    var c4 := c3.(pc := 1, cells := map[0 := Some(v), 1 := None]);
    var c5 := c3.(pc := 2, cells := map[0 := Some(v), 1 := Some(w)]);
    var c6 := c5.(pc := 3, registers := c5.registers[1 := w]);
    assert c0.registers[0] == v;
    assert Step(g, c0) == Running(c1) && Step(g, c1) == Running(c2) && Step(g, c2) == Running(c3);
    assert Step(g, c3) == Running(c4) && Step(g, c4) == Running(c5) && Step(g, c5) == Running(c6);
    assert Run(g, c6, 1) == Finished(Some(w));
    assert Run(g, c5, 2) == Finished(Some(w));
    assert Run(g, c4, 3) == Finished(Some(w));
    assert Run(g, c3, 4) == Finished(Some(w));
    assert Run(g, c2, 5) == Finished(Some(w));
    assert Run(g, c1, 6) == Finished(Some(w));
    assert Run(g, c0, 7) == Finished(Some(w));
  }
}
