/** Whole functions: entry through the allocation block, parameters, and the outcome of every call. */
module FunctionSimulation {
  import opened Options
  import opened Syntax
  import opened Source
  import opened Machine
  import opened Lowering
  import opened LoweringFrame
  import opened StatementFrame
  import opened Simulation
  import opened ExprSimulation
  import opened StatementSimulation

  function ParameterNames(parameters: seq<Parameter>): (names: seq<string>)
    ensures |names| == |parameters|
    ensures forall i :: 0 <= i < |names| ==> names[i] == parameters[i].name
  {
    seq(|parameters|, i requires 0 <= i < |parameters| => parameters[i].name)
  }

  /** The slots of a call: every parameter holds its argument. */
  function Arguments(parameters: seq<Parameter>, args: seq<Value>): (env: Env)
    requires |parameters| == |args|
    ensures |env| == |args|
    ensures forall i :: 0 <= i < |env| ==> env[i] == Slot(parameters[i].name, parameters[i].t, Some(args[i]))
  {
    seq(|args|, i requires 0 <= i < |args| => Slot(parameters[i].name, parameters[i].t, Some(args[i])))
  }

  /** A call enters the allocation block with its arguments in the first registers and no cells. */
  function Entry(args: seq<Value>): Config {
    Config(0, 0, map i: nat | i < |args| :: args[i], map[])
  }

  // ----- entry -----

  /** The allocation block creates every cell, and control continues in the entry block. */
  lemma {:induction false} AllocationRuns(g: Graph, c: Config) returns (d: Config)
    requires |g| >= 2 && Allocates(g[0]) && g[0].end == Some(Br(1))
    requires c.block == 0 && c.pc <= |g[0].body| && forall k :: 0 <= k < c.pc ==> k in c.cells
    ensures Reaches(g, c, 1, d) && d.block == 1 && d.pc == 0 && d.registers == c.registers && Backed(g, d)
    decreases |g[0].body| - c.pc
  {
    if c.pc == |g[0].body| {
      d := c.(block := 1, pc := 0);
      ReachesStep(g, c, d);
    } else {
      assert g[0].body[c.pc] == Alloca(c.pc);
      var next := c.(pc := c.pc + 1, cells := c.cells[c.pc := None]);
      ReachesStep(g, c, next);
      d := AllocationRuns(g, next);
      ReachesThrough(g, c, 1, next, 1, d);
      ReachesFewer(g, c, 2, 1, d);
    }
  }

  /** Every parameter's register is stored to the parameter's own cell. */
  lemma {:induction false} ParametersGo(
    g: Graph, s: State, c: Config, parameters: seq<Parameter>, args: seq<Value>, i: nat) returns (d: Config)
    requires |args| == |parameters| && i <= |args|
    requires Standing(g, s, c, Arguments(parameters, args)[..i])
    requires forall k :: 0 <= k < |args| ==> k in c.registers && c.registers[k] == args[k]
    requires Completes(g, StoreParameters(s, ParameterNames(parameters), i))
    ensures Reaches(g, c, 0, d)
    ensures Standing(g, StoreParameters(s, ParameterNames(parameters), i), d, Arguments(parameters, args))
    decreases |args| - i
  {
    hide Touches, Completes;
    var names := ParameterNames(parameters);
    var env := Arguments(parameters, args);
    if i == |args| {
      ReachesHere(g, c);
      d := c;
      assert env[..i] == env;
    } else {
      var store := Store(Cells(s), Register(i));
      var s1 := Put(AddLocal(s, names[i]), store);
      ParameterFrame(g, s, names, i);
      CompletesBlocks(g, s1, Put(Allocate(s), store));
      var d1 := FreshStoreGoes(g, s, c, store, args[i]);
      MatchedLater(env[..i], s, c, d1);
      assert Matched(env[..i + 1], s1.locals, d1);
      d := ParametersGo(g, s1, d1, parameters, args, i + 1);
      ReachesThrough(g, c, 0, d1, 0, d);
    }
  }

  lemma ParameterFrame(g: Graph, s: State, names: seq<string>, i: nat)
    requires Open(s) && i < |names| && Completes(g, StoreParameters(s, names, i))
    ensures var s1 := Put(AddLocal(s, names[i]), Store(Cells(s), Register(i)));
            Open(s1) && Completes(g, s1)
  {
    var s1 := Put(AddLocal(s, names[i]), Store(Cells(s), Register(i)));
    StoreParametersFrame(s1, names, i + 1);
    CompletesEarlier(g, s1, StoreParameters(s, names, i), {StoreParameters(s, names, i).at});
  }

  // ----- calls -----

  /** How a call ends, for a body outcome that is an end. */
  function StatusOf(o: Outcome): Status
    requires o.Falls? || o.Returned? || o.Trapped?
  {
    match o
    case Falls(_) => Finished(None)
    case Returned(v) => Finished(v)
    case Trapped => TrapStop
  }

  /** Neither stuck nor stopped at a condition that is no truth value. */
  predicate Decided(o: Outcome) {
    !o.Stuck? && !o.Undecided?
  }

  /** The states of an emitted function. */
  lemma FunctionStates(parameters: seq<Parameter>, body: seq<Stmt>, returnsValue: bool, g: Graph)
    requires EmitFunction(ParameterNames(parameters), body, returnsValue, true) == Some(g)
    ensures var s0 := StartFunction(|parameters|);
            var s1 := StoreParameters(s0, ParameterNames(parameters), 0);
            var r := EmitFrom(s1, body, 0, returnsValue, true);
            && r.Lowered? && Completes(g, s0) && Completes(g, s1) && Completes(g, r.s) && Open(s1)
            && |g| >= 2 && Allocates(g[0]) && g[0].end == Some(Br(1))
            && (!r.terminated ==> !returnsValue && r.s.at < |g| && g[r.s.at] == Block(r.s.blocks[r.s.at].body, Some(RetVoid)))
  {
    hide EmitFrom, StoreParameters, Touches;
    var names := ParameterNames(parameters);
    var s0 := StartFunction(|names|);
    var s1 := StoreParameters(s0, names, 0);
    var r := EmitFrom(s1, body, 0, returnsValue, true);
    EmittedFunctionWellFormed(names, body, returnsValue, true);
    StoreParametersFrame(s0, names, 0);
    EmitFromFrame(s1, body, 0, returnsValue, true);
    FlowReports(s1, r.s, r.terminated);
    assert Completes(g, r.s);
    CompletesEarlier(g, s1, r.s, Exit(r.s, r.terminated));
    CompletesEarlier(g, s0, s1, {s1.at});
  }

  /** The machine reaches the entry block with the call's slots in place. */
  lemma CallEnters(parameters: seq<Parameter>, args: seq<Value>, body: seq<Stmt>, returnsValue: bool, g: Graph)
    returns (c: Config)
    requires |args| == |parameters| && EmitFunction(ParameterNames(parameters), body, returnsValue, true) == Some(g)
    ensures Reaches(g, Entry(args), 0, c)
    ensures var s1 := StoreParameters(StartFunction(|parameters|), ParameterNames(parameters), 0);
            Standing(g, s1, c, Arguments(parameters, args))
  {
    hide EmitFrom, EmitFunction, StoreParameters, Touches, Completes, Allocates;
    FunctionStates(parameters, body, returnsValue, g);
    var s0 := StartFunction(|parameters|);
    var d := AllocationRuns(g, Entry(args));
    assert Standing(g, s0, d, Arguments(parameters, args)[..0]);
    c := ParametersGo(g, s0, d, parameters, args, 0);
    ReachesThrough(g, Entry(args), 1, d, 0, c);
    ReachesFewer(g, Entry(args), 1, 0, c);
  }

  /**
   Lowering preserves meaning: for every call and every bound on loop iterations, if the source body ends, the
   machine ends the same way; if it is still running, so is the machine after that many steps.
   */
  lemma CallPreserved(
    parameters: seq<Parameter>, args: seq<Value>, body: seq<Stmt>, returnsValue: bool, g: Graph, fuel: nat)
    requires |args| == |parameters| && EmitFunction(ParameterNames(parameters), body, returnsValue, true) == Some(g)
    ensures var o := ExecFrom(body, 0, Arguments(parameters, args), fuel);
            && (o.Falls? || o.Returned? || o.Trapped? ==> Stops(g, Entry(args), StatusOf(o)))
            && (o.Timeout? ==> Run(g, Entry(args), fuel).Running?)
            && (o.Falls? ==> !returnsValue)
  {
    hide EmitFrom, EmitFunction, StoreParameters, Completes, Allocates, ExecFrom, Standing, Stops, Matched, Backed;
    var s1 := StoreParameters(StartFunction(|parameters|), ParameterNames(parameters), 0);
    FunctionStates(parameters, body, returnsValue, g);
    var c := CallEnters(parameters, args, body, returnsValue, g);
    var r := EmitFrom(s1, body, 0, returnsValue, true);
    var d := FromGoes(g, s1, c, body, 0, Arguments(parameters, args), returnsValue, fuel);
    var o := ExecFrom(body, 0, Arguments(parameters, args), fuel);
    match o
    case Falls(_) =>
      StopsStep(g, d, Finished(None));
      StopsThrough(g, c, 0, d, Finished(None));
      StopsThrough(g, Entry(args), 0, c, Finished(None));
    case Returned(v) => StopsThrough(g, Entry(args), 0, c, Finished(v));
    case Trapped => StopsThrough(g, Entry(args), 0, c, TrapStop);
    case Timeout =>
      ReachesThrough(g, Entry(args), 0, c, fuel, d);
      RunningUpTo(g, Entry(args), fuel, d);
    case Undecided =>
    case Stuck =>
  }

  lemma RunningUpTo(g: Graph, c: Config, n: nat, d: Config)
    requires Reaches(g, c, n, d)
    ensures Run(g, c, n).Running?
  {
    var m: nat :| n <= m && Run(g, c, m) == Running(d);
    if !Run(g, c, n).Running? {
      RunStopped(g, c, n, m);
    }
  }

  /** A source body that never ends is a machine run that never stops. */
  lemma DivergencePreserved(
    parameters: seq<Parameter>, args: seq<Value>, body: seq<Stmt>, returnsValue: bool, g: Graph, n: nat)
    requires |args| == |parameters| && EmitFunction(ParameterNames(parameters), body, returnsValue, true) == Some(g)
    requires forall fuel: nat :: ExecFrom(body, 0, Arguments(parameters, args), fuel).Timeout?
    ensures Run(g, Entry(args), n).Running?
  {
    CallPreserved(parameters, args, body, returnsValue, g, n);
  }

  /**
   Nothing else happens: however the machine stops, the source body ends that way for some number of loop
   iterations, provided it never gets stuck or stops at a condition that is no truth value.
   */
  lemma CallReflected(
    parameters: seq<Parameter>, args: seq<Value>, body: seq<Stmt>, returnsValue: bool, g: Graph, status: Status)
    returns (fuel: nat)
    requires |args| == |parameters| && EmitFunction(ParameterNames(parameters), body, returnsValue, true) == Some(g)
    requires Stops(g, Entry(args), status)
    requires forall k: nat :: Decided(ExecFrom(body, 0, Arguments(parameters, args), k))
    ensures var o := ExecFrom(body, 0, Arguments(parameters, args), fuel);
            (o.Falls? || o.Returned? || o.Trapped?) && StatusOf(o) == status
  {
    hide EmitFunction, ExecFrom;
    var n: nat :| Run(g, Entry(args), n) == status;
    fuel := n;
    CallPreserved(parameters, args, body, returnsValue, g, fuel);
    var o := ExecFrom(body, 0, Arguments(parameters, args), fuel);
    StopsOnce(g, Entry(args), status, if o.Timeout? then status else StatusOf(o));
  }
}
