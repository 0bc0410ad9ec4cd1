/** From acceptance to the emitted graph: which accepted functions compile, and that their calls never go wrong. */
module EndToEnd {
  import opened Options
  import opened Syntax
  import opened Source
  import opened Machine
  import opened FunctionSimulation
  import opened Hygiene
  import opened Checker
  import opened CheckerSound
  import opened Elaboration
  import opened Suitability
  import opened Compilation
  import opened Compiled
  import opened Acceptance

  /** Arguments of the declared types. */
  ghost predicate ArgumentsTyped(parameters: seq<Parameter>, args: seq<Value>) {
    |args| == |parameters| && forall i :: 0 <= i < |args| ==> HasType(args[i], parameters[i].t)
  }

  /** A function the checker accepts, whose loops keep what was initialised. */
  predicate Sound(parameters: seq<Parameter>, body: seq<Stmt>, output: Option<Type>) {
    && CheckFunction(parameters, body, output) == None
    && LoopsKeepBlock(body, ParameterLocals(parameters), 0, output)
  }

  /** A result of the declared type. */
  ghost predicate ResultTyped(result: Option<Value>, output: Option<Type>) {
    match result
    case None => output.None?
    case Some(v) => output.Some? && HasType(v, output.value)
  }

  /**
   Calls of sound functions never read a local that is unassigned or moved, return what they declare, and are
   undecided only where a number stands for a truth value.
   */
  lemma CallSound(parameters: seq<Parameter>, args: seq<Value>, body: seq<Stmt>, output: Option<Type>, fuel: nat)
    requires Sound(parameters, body, output) && ArgumentsTyped(parameters, args)
    ensures var o := ExecFrom(body, 0, Arguments(parameters, args), fuel);
            && !o.Stuck?
            && (o.Undecided? ==> !SuitsFunction(parameters, body))
            && (o.Returned? ==> ResultTyped(o.value, output))
            && (o.Falls? ==> output.None?)
  {
    hide CheckBlock, ExecFrom, LoopsKeepBlock, HasType, SuitsFrom;
    BlockSound(body, ParameterLocals(parameters), 0, output, Arguments(parameters, args), fuel);
    assert TableOf(ParameterLocals(parameters)) == ParameterTable(parameters);
  }

  /**
   A sound function without stale names compiles exactly if its conditions and logical operands are boolean and
   its literals find their types. Every call of the compiled function runs on forever, traps, or returns a value
   of the declared type: it never reads an undefined cell, reads a payload under another tag, or reaches the
   unreachable end of a match.
   */
  lemma AcceptedCallsAreSafe(
    parameters: seq<Parameter>, args: seq<Value>, body: seq<Stmt>, output: Option<Type>, n: nat)
    requires Sound(parameters, body, output) && StaleFree(body) && ArgumentsTyped(parameters, args)
    ensures Compile(parameters, body, output, false).Some? <==> SuitsFunction(parameters, body)
    ensures SuitsFunction(parameters, body) ==>
              match Run(Compile(parameters, body, output, false).value, Entry(args), n)
              case Running(_) => true
              case TrapStop => true
              case Finished(result) => ResultTyped(result, output)
              case Undefined => false
  {
    hide Compile, ElaborateFunction, SuitsFunction, StaleFree, ExecFrom, CheckFunction, LoopsKeepBlock, HasType;
    StaleFreeCompiles(parameters, body, output, false);
    StaleFreeCompiles(parameters, body, output, true);
    if SuitsFunction(parameters, body) {
      var g := Compile(parameters, body, output, false).value;
      var status := Run(g, Entry(args), n);
      if !status.Running? {
        forall k: nat
          ensures Decided(ExecFrom(body, 0, Arguments(parameters, args), k))
        {
          CallSound(parameters, args, body, output, k);
        }
        assert Stops(g, Entry(args), status);
        var fuel := CompiledCallReflected(parameters, args, body, output, body, g, status);
        CallSound(parameters, args, body, output, fuel);
      }
    }
  }

  /** Without loops the condition is met: whatever the checker accepts is sound. */
  lemma LoopFreeIsSound(parameters: seq<Parameter>, body: seq<Stmt>, output: Option<Type>)
    requires CheckFunction(parameters, body, output) == None && LoopFreeBlock(body)
    ensures Sound(parameters, body, output)
  {
    hide CheckFunction, LoopFreeBlock;
    LoopFreeKeepsFrom(body, 0, ParameterLocals(parameters), 1, output);
  }

  // ----- a loop that the checker accepts and that goes wrong -----

  const GIVEN := Parameter("x", TextType, false)
  const TAKEN := Parameter("y", TextType, true)

  /** Moves `x` in every iteration. */
  function MovingLoop(): seq<Stmt> {
    [While(BoolLiteral(true), [Assign("y", Read("x", []))])]
  }

  /**
   The loop condition of `Sound` cannot be dropped: the checker accepts a loop that moves a value in its body,
   and the second iteration reads the moved value.
   */
  lemma MovingLoopAccepted(a: nat, b: nat)
    ensures CheckFunction([GIVEN, TAKEN], MovingLoop(), None) == None
    ensures ExecFrom(MovingLoop(), 0, Arguments([GIVEN, TAKEN], [Handle(a), Handle(b)]), 2) == Stuck
    ensures !LoopsKeepBlock(MovingLoop(), ParameterLocals([GIVEN, TAKEN]), 0, None)
  {
    hide ExecFrom, CheckBlock, LoopsKeepBlock;
    MovingLoopChecks();
    MovingLoopRuns(a, b);
  }

  function MovingBody(): seq<Stmt> {
    [Assign("y", Read("x", []))]
  }

  lemma MovingLoopChecks()
    ensures CheckBlock(MovingLoop(), ParameterLocals([GIVEN, TAKEN]), 0, None).Accepted?
    ensures !LoopsKeepBlock(MovingLoop(), ParameterLocals([GIVEN, TAKEN]), 0, None)
  {
    var x, y := CheckedLocal("x", TextType, false, Initialized, 0), CheckedLocal("y", TextType, true, Initialized, 0);
    var locals := ParameterLocals([GIVEN, TAKEN]);
    assert locals == [x, y];
    assert NamesOf(locals) == ["x", "y"];
    assert Newest(["x", "y"], "y") == Some(1);
    assert Newest(["x"], "x") == Some(0);
    assert Newest(["x", "y"], "x") == Some(0) by { assert ["x", "y"][..1] == ["x"]; }
    assert TypeOf(Read("x", []), locals) == Typed(TextType);
    var after := [x.(fact := Moved), y];
    assert Transfer(Read("x", []), locals, Some(1)) == Accepted(after, true);
    assert CheckStatement(MovingBody()[0], locals, 2, None) == Accepted(after, true) by {
      assert after[1 := after[1].(fact := Initialized)] == after;
    }
    assert CheckFrom(MovingBody(), 1, after, 2, None) == Accepted(after, true);
    assert CheckFrom(MovingBody(), 0, locals, 2, None) == Accepted(after, true);
    assert CheckBlock(MovingBody(), locals, 1, None) == Accepted(after, true) by { assert after[..2] == after; }
    var loop := MovingLoop()[0];
    assert loop == While(BoolLiteral(true), MovingBody());
    assert CheckStatement(loop, locals, 1, None).Accepted?;
    var again := Merged(locals, FactsOf(locals), FactsOf(after));
    assert again == [x.(fact := MaybeMoved), y];
    assert NamesOf(again) == ["x", "y"];
    assert TypeOf(Read("x", []), again).TypeError?;
    assert CheckStatement(MovingBody()[0], again, 2, None).Refused?;
    assert CheckBlock(MovingBody(), again, 1, None).Refused?;
    assert !LoopsKeep(loop, locals, 1, None);
    var v := CheckStatement(loop, locals, 1, None);
    assert CheckFrom(MovingLoop(), 1, v.locals, 1, None).Accepted?;
    assert CheckFrom(MovingLoop(), 0, locals, 1, None).Accepted?;
    assert !LoopsKeepFrom(MovingLoop(), 0, locals, 1, None);
  }

  lemma MovingLoopRuns(a: nat, b: nat)
    ensures ExecFrom(MovingLoop(), 0, Arguments([GIVEN, TAKEN], [Handle(a), Handle(b)]), 2) == Stuck
  {
    var x, y := Slot("x", TextType, Some(Handle(a))), Slot("y", TextType, Some(Handle(b)));
    var env := Arguments([GIVEN, TAKEN], [Handle(a), Handle(b)]);
    assert env == [x, y];
    var next := [x.(value := None), y.(value := Some(Handle(a)))];
    assert Names(env) == ["x", "y"] && Names(next) == ["x", "y"];
    assert Newest(["x", "y"], "y") == Some(1);
    assert Newest(["x"], "x") == Some(0);
    assert Newest(["x", "y"], "x") == Some(0) by { assert ["x", "y"][..1] == ["x"]; }
    assert Eval(Read("x", []), env) == Yields(Handle(a));
    assert ExecAssign("y", Read("x", []), env) == Falls(next);
    assert ExecFrom(MovingBody(), 1, next, 1) == Falls(next);
    assert ExecFrom(MovingBody(), 0, env, 1) == Falls(next);
    assert next[..2] == next;
    var loop := While(BoolLiteral(true), MovingBody());
    assert Exec(loop, env, 2) == Exec(loop, next, 1);
    assert Eval(Read("x", []), next) == Wrong;
    assert ExecFrom(MovingBody(), 0, next, 0) == Stuck;
    assert Exec(loop, next, 1) == Stuck;
    assert MovingLoop()[0] == loop;
  }
}
