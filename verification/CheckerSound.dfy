/**
 Accepted bodies never go wrong: every local that is read has been assigned and not moved since, values have
 their types, and some case of every match is entered.
 */
module CheckerSound {
  import opened Integers
  import opened Options
  import opened Syntax
  import opened Patterns
  import opened Source
  import opened StatementSimulation
  import opened Checker
  import opened CheckerFlow
  import opened Termination
  import opened Elaboration
  import opened Suitability

  /** The run-time stack has the checked shape, and initialised locals hold values of their types. */
  ghost predicate Describes(locals: Locals, env: Env) {
    && |env| == |locals|
    && forall i :: 0 <= i < |env| ==>
         && env[i].name == locals[i].name && env[i].t == locals[i].t
         && (locals[i].fact == Initialized ==> env[i].value.Some? && HasType(env[i].value.value, locals[i].t))
  }

  lemma SameNames(locals: Locals, env: Env)
    requires Describes(locals, env)
    ensures Names(env) == NamesOf(locals)
  {
  }

  lemma DescribesPrefix(before: Locals, after: Locals, env: Env)
    requires |before| <= |after| && Describes(after, env)
    ensures |before| <= |env| && Describes(after[..|before|], env[..|before|])
  {
  }

  /** Weaker facts describe the same stacks. */
  lemma DescribesWeaker(a: Locals, b: Locals, env: Env)
    requires Describes(a, env) && |a| == |b|
    requires forall i :: 0 <= i < |a| ==>
               a[i].name == b[i].name && a[i].t == b[i].t && (b[i].fact == Initialized ==> a[i].fact == Initialized)
    ensures Describes(b, env)
  {
  }

  // ----- expressions -----

  /** `decided` says that no number may stand for a truth value. */
  ghost predicate WellValued(r: Evaluated, t: Type, decided: bool) {
    match r
    case Wrong => false
    case NotBoolean => !decided
    case Aborts => true
    case Yields(v) => HasType(v, t)
  }

  lemma {:induction false} ExprSound(e: Expr, asked: bool, locals: Locals, env: Env)
    requires Describes(locals, env) && TypeOf(e, locals).Typed?
    ensures WellValued(Eval(e, env), TypeOf(e, locals).t, Suits(e, asked, TableOf(locals)))
    decreases e
  {
    hide SourceArith, SourceCompare, ToInteger, FromInteger, Describes, TableOf, ExprTypeOf, Grounded, InRange;
    match e
    case IntLiteral(t, n) => IntegerTyped(n, t);
    case BoolLiteral(_) =>
    case Read(x, path) => ReadSound(x, path, locals, env);
    case Convert(from, to, operand) =>
      if operand.IntLiteral? {
        IntegerTyped(operand.value, operand.t);
      } else {
        ExprSound(operand, false, locals, env);
      }
      if Eval(operand, env).Yields? {
        IntegerTyped(ToInteger(Eval(operand, env).value, from), to);
      }
    case Not(operand) =>
      InferredTypes(operand, locals);
      ExprSound(operand, false, locals, env);
    case Negate(t, operand) =>
      ExprSound(operand, true, locals, env);
      IntegerTyped(0, t);
      if Eval(operand, env).Yields? {
        ArithTyped(Subtract, t, FromInteger(0, t), Eval(operand, env).value);
      }
    case BitNot(t, operand) =>
      ExprSound(operand, true, locals, env);
      if Eval(operand, env).Yields? {
        var x := ToInteger(Eval(operand, env).value, t);
        IntegerTyped(if t.signed then -x - 1 else Max(t) - x, t);
      }
    case Arith(op, t, left, right) =>
      ExprSound(left, true, locals, env);
      ExprSound(right, true, locals, env);
      if Eval(left, env).Yields? && Eval(right, env).Yields? {
        ArithTyped(op, t, Eval(left, env).value, Eval(right, env).value);
      }
    case Compare(_, _, left, right) =>
      ExprSound(left, true, locals, env);
      ExprSound(right, true, locals, env);
    case SameBool(_, left, right) =>
      ExprSound(left, true, locals, env);
      ExprSound(right, true, locals, env);
    case And(left, right) => LogicSound(e, left, right, locals, env);
    case Or(left, right) => LogicSound(e, left, right, locals, env);
  }

  lemma {:induction false} LogicSound(e: Expr, left: Expr, right: Expr, locals: Locals, env: Env)
    requires (e.And? || e.Or?) && left == e.left && right == e.right
    requires Describes(locals, env) && TypeOf(e, locals).Typed?
    ensures WellValued(Eval(e, env), BooleanType, Suits(e, true, TableOf(locals)))
    decreases e, 0
  {
    hide Describes, TableOf, Truth;
    OperandSound(left, e, locals, env);
    OperandSound(right, e, locals, env);
    var a, b := Eval(left, env), Eval(right, env);
    var suits := Suits(e, true, TableOf(locals));
    LogicValued(a, b, suits);
    assert Eval(e, env) == if e.And? then Conjunction(a, b) else Disjunction(a, b);
  }

  /** What an operand used as a truth value comes to. */
  ghost predicate TruthValued(r: Evaluated, decided: bool) {
    match r
    case Wrong => false
    case NotBoolean => !decided
    case Aborts => true
    case Yields(v) => v.Bits? && (decided ==> IsBool(v))
  }

  function Conjunction(a: Evaluated, b: Evaluated): Evaluated {
    if !a.Yields? then a
    else if a.value == Bool(true) then AsBool(b)
    else if a.value == Bool(false) then a
    else NoTruth(a.value)
  }

  function Disjunction(a: Evaluated, b: Evaluated): Evaluated {
    if !a.Yields? then a
    else if a.value == Bool(false) then AsBool(b)
    else if a.value == Bool(true) then a
    else NoTruth(a.value)
  }

  lemma LogicValued(a: Evaluated, b: Evaluated, decided: bool)
    requires TruthValued(a, decided) && TruthValued(b, decided)
    ensures WellValued(Conjunction(a, b), BooleanType, decided) && WellValued(Disjunction(a, b), BooleanType, decided)
  {
  }

  lemma {:induction false} OperandSound(operand: Expr, e: Expr, locals: Locals, env: Env)
    requires operand < e && Describes(locals, env)
    requires TypeOf(operand, locals).Typed? && BoolConvertible(TypeOf(operand, locals).t)
    ensures TruthValued(Eval(operand, env), Truth(operand, TableOf(locals)) && Suits(operand, true, TableOf(locals)))
    decreases e, 0, 0
  {
    hide Describes, TableOf, Truth, Suits, TypeOf, Eval;
    InferredTypes(operand, locals);
    ExprSound(operand, true, locals, env);
  }

  lemma IntegerTyped(n: int, t: IntType)
    ensures HasType(FromInteger(n, t), IntegerType(t))
  {
  }

  lemma ArithTyped(op: ArithOp, t: IntType, v: Value, w: Value)
    requires IsInteger(v, t) && IsInteger(w, t)
    ensures WellValued(EvalArith(op, t, v, w), IntegerType(t), true)
  {
    hide SourceArith, ToInteger;
    match SourceArith(op, t, ToInteger(v, t), ToInteger(w, t))
    case Overflow =>
    case Fits(r) => IntegerTyped(r, t);
  }

  lemma ReadSound(x: string, path: seq<nat>, locals: Locals, env: Env)
    requires Describes(locals, env) && CheckRead(locals, x, path).Typed?
    ensures WellValued(ReadSlot(env, x, path), CheckRead(locals, x, path).t, true)
  {
    SameNames(locals, env);
    var i := Newest(NamesOf(locals), x).value;
    ProjectTyped(env[i].value.value, locals[i].t, path);
  }

  // ----- outcomes -----

  /** An outcome that the verdict allows; undecided ones only if some number stands for a truth value. */
  ghost predicate Allowed(v: Verdict, o: Outcome, output: Option<Type>, decided: bool)
    requires v.Accepted?
  {
    match o
    case Stuck => false
    case Undecided => !decided
    case Falls(env) => v.falls && Describes(v.locals, env)
    case Returned(None) => output.None?
    case Returned(Some(r)) => output.Some? && HasType(r, output.value)
    case Trapped => true
    case Timeout => true
  }

  lemma AssignSound(x: string, e: Expr, locals: Locals, env: Env, output: Option<Type>)
    requires Describes(locals, env) && CheckAssign(x, e, locals).Accepted?
    ensures Allowed(CheckAssign(x, e, locals), ExecAssign(x, e, env), output, Suits(e, true, TableOf(locals)))
  {
    hide TypeOf, Eval, MoveOnly, HasType, Suits, TableOf;
    SameNames(locals, env);
    ExprSound(e, true, locals, env);
    var i := Newest(NamesOf(locals), x).value;
    TransferSound(e, locals, env, i);
  }

  /** The checker marks exactly the local that the run empties. */
  lemma TransferSound(e: Expr, locals: Locals, env: Env, i: nat)
    requires Describes(locals, env) && i < |locals| && Transfer(e, locals, Some(i)).Accepted?
    ensures Describes(Transfer(e, locals, Some(i)).locals, AfterMove(e, env, Some(i)))
  {
    hide MoveOnly, HasType;
    SameNames(locals, env);
  }

  lemma ReturnSound(result: Option<Expr>, locals: Locals, env: Env, output: Option<Type>, fuel: nat)
    requires Describes(locals, env) && CheckReturn(result, locals, output).Accepted?
    ensures Allowed(CheckReturn(result, locals, output), Exec(Return(result), env, fuel), output,
                    SuitsStatement(Return(result), TableOf(locals)))
  {
    hide TypeOf, Eval, MoveOnly, HasType, Transfer, Suits, TableOf;
    if result.Some? {
      ExprSound(result.value, true, locals, env);
    }
  }

  // ----- loops -----

  /**
   Every loop body that can run again also checks from the facts its first run leaves, and keeps what they say is
   initialised: the one thing the checker does not examine, as it checks each loop body once.
   */
  predicate LoopsKeep(stmt: Stmt, locals: Locals, depth: nat, output: Option<Type>)
    decreases stmt
  {
    match stmt
    case If(_, thenBlock, elseBlock) =>
      LoopsKeepBlock(thenBlock, locals, depth, output) && LoopsKeepBlock(elseBlock, locals, depth, output)
    case While(c, body) =>
      LoopsKeepBlock(body, locals, depth, output) &&
      (match CheckBlock(body, locals, depth, output)
       case Refused(_) => true
       case Accepted(after, falls) =>
         falls ==>
           var again := Merged(locals, FactsOf(locals), FactsOf(after));
           && TypeOf(c, again) == TypeOf(c, locals)
           && LoopsKeepBlock(body, again, depth, output)
           && RunsAgain(again, CheckBlock(body, again, depth, output)))
    case Unsafe(body) => LoopsKeepBlock(body, locals, depth, output)
    case Match(t, _, cases) => forall j :: 0 <= j < |cases| ==> LoopsKeepCase(cases[j], t, locals, depth, output)
    case _ => true
  }

  /** A body checked from these facts leaves initialised what they say is initialised. */
  predicate RunsAgain(again: Locals, v: Verdict) {
    && v.Accepted?
    && (v.falls ==>
          forall i :: 0 <= i < |again| && i < |v.locals| && again[i].fact == Initialized ==>
            v.locals[i].fact == Initialized)
  }

  predicate LoopsKeepBlock(block: seq<Stmt>, locals: Locals, depth: nat, output: Option<Type>)
    decreases block, |block| + 1
  {
    LoopsKeepFrom(block, 0, locals, depth + 1, output)
  }

  predicate LoopsKeepFrom(block: seq<Stmt>, i: nat, locals: Locals, depth: nat, output: Option<Type>)
    decreases block, |block| - i
  {
    i < |block| ==>
      LoopsKeep(block[i], locals, depth, output) &&
      match CheckStatement(block[i], locals, depth, output)
      case Refused(_) => true
      case Accepted(after, falls) => falls ==> LoopsKeepFrom(block, i + 1, after, depth, output)
  }

  predicate LoopsKeepCase(c: Case, t: Type, locals: Locals, depth: nat, output: Option<Type>)
    decreases c
  {
    match Analyze(t, c.pattern)
    case None => true
    case Some(info) => LoopsKeepBlock(c.body, locals + BoundLocals(info.bindings, depth + 1), depth, output)
  }

  /** No loop anywhere inside. */
  predicate LoopFree(stmt: Stmt)
    decreases stmt
  {
    match stmt
    case If(_, thenBlock, elseBlock) => LoopFreeBlock(thenBlock) && LoopFreeBlock(elseBlock)
    case While(_, _) => false
    case Unsafe(body) => LoopFreeBlock(body)
    case Match(_, _, cases) => forall j :: 0 <= j < |cases| ==> LoopFreeCase(cases[j])
    case _ => true
  }

  predicate LoopFreeBlock(block: seq<Stmt>)
    decreases block
  {
    forall k :: 0 <= k < |block| ==> LoopFree(block[k])
  }

  predicate LoopFreeCase(c: Case)
    decreases c
  {
    LoopFreeBlock(c.body)
  }

  /** Bodies without loops meet the loop condition. */
  lemma {:induction false} LoopFreeKeeps(stmt: Stmt, locals: Locals, depth: nat, output: Option<Type>)
    requires LoopFree(stmt)
    ensures LoopsKeep(stmt, locals, depth, output)
    decreases stmt
  {
    hide CheckBlock, Analyze;
    match stmt {
      case If(_, thenBlock, elseBlock) =>
        LoopFreeKeepsFrom(thenBlock, 0, locals, depth + 1, output);
        LoopFreeKeepsFrom(elseBlock, 0, locals, depth + 1, output);
      case Unsafe(body) => LoopFreeKeepsFrom(body, 0, locals, depth + 1, output);
      case Match(t, _, cases) =>
        forall j | 0 <= j < |cases|
          ensures LoopsKeepCase(cases[j], t, locals, depth, output)
        {
          assert LoopFreeCase(cases[j]);
          LoopFreeKeepsCase(cases[j], t, locals, depth, output);
        }
      case _ =>
    }
  }

  lemma {:induction false} LoopFreeKeepsFrom(
    block: seq<Stmt>, i: nat, locals: Locals, depth: nat, output: Option<Type>)
    requires LoopFreeBlock(block)
    ensures LoopsKeepFrom(block, i, locals, depth, output)
    decreases block, |block| - i
  {
    hide CheckStatement, LoopsKeep, LoopFree;
    if i < |block| {
      LoopFreeKeeps(block[i], locals, depth, output);
      match CheckStatement(block[i], locals, depth, output)
      case Refused(_) =>
      case Accepted(after, _) => LoopFreeKeepsFrom(block, i + 1, after, depth, output);
    }
  }

  lemma {:induction false} LoopFreeKeepsCase(c: Case, t: Type, locals: Locals, depth: nat, output: Option<Type>)
    requires LoopFreeCase(c)
    ensures LoopsKeepCase(c, t, locals, depth, output)
    decreases c
  {
    match Analyze(t, c.pattern)
    case None =>
    case Some(info) =>
      LoopFreeKeepsFrom(c.body, 0, locals + BoundLocals(info.bindings, depth + 1), depth + 1, output);
  }

  // ----- statements -----

  lemma {:induction false} StatementSound(
    stmt: Stmt, locals: Locals, depth: nat, output: Option<Type>, env: Env, fuel: nat)
    requires Describes(locals, env) && CheckStatement(stmt, locals, depth, output).Accepted?
    requires LoopsKeep(stmt, locals, depth, output)
    ensures Allowed(CheckStatement(stmt, locals, depth, output), Exec(stmt, env, fuel), output,
                    SuitsStatement(stmt, TableOf(locals)))
    decreases fuel, stmt, 1
  {
    hide TypeOf, Eval, CheckBlock, CheckCases, ExecFrom, ExecCases, CheckAssign, ExecAssign, Describes, Merged;
    hide Restored;
    hide LoopsKeepBlock, LoopsKeepCase, HasType, CheckReturn, Suits, TableOf, SuitsFrom, SuitsCase, Truth;
    match stmt
    case Declare(x, t, mutable) => DeclareSound(stmt, locals, depth, output, env, fuel);
    case Assign(x, e) => AssignSound(x, e, locals, env, output);
    case Return(result) => ReturnSound(result, locals, env, output, fuel);
    case If(c, thenBlock, elseBlock) => IfSound(stmt, locals, depth, output, env, fuel);
    case While(c, body) => WhileSound(stmt, locals, depth, output, env, fuel);
    case Unsafe(body) =>
      BlockSound(body, locals, depth, output, env, fuel);
    case Match(t, scrutinee, cases) => MatchSound(stmt, locals, depth, output, env, fuel);
  }

  lemma DeclareSound(stmt: Stmt, locals: Locals, depth: nat, output: Option<Type>, env: Env, fuel: nat)
    requires stmt.Declare? && Describes(locals, env) && CheckStatement(stmt, locals, depth, output).Accepted?
    ensures Allowed(CheckStatement(stmt, locals, depth, output), Exec(stmt, env, fuel), output,
                    SuitsStatement(stmt, TableOf(locals)))
  {
  }

  lemma {:induction false} BlockSound(
    block: seq<Stmt>, locals: Locals, depth: nat, output: Option<Type>, env: Env, fuel: nat)
    requires Describes(locals, env) && CheckBlock(block, locals, depth, output).Accepted?
    requires LoopsKeepBlock(block, locals, depth, output)
    ensures Allowed(CheckBlock(block, locals, depth, output), LeaveScope(env, ExecFrom(block, 0, env, fuel)), output,
                    SuitsFrom(block, 0, TableOf(locals)))
    decreases fuel, block, |block| + 1
  {
    hide CheckFrom, ExecFrom, Describes, LoopsKeepFrom, HasType, SuitsFrom, TableOf;
    FromSound(block, 0, locals, depth + 1, output, env, fuel);
    FromKeeps(block, 0, locals, depth + 1, output);
    var o := ExecFrom(block, 0, env, fuel);
    if o.Falls? {
      DescribesLength(locals, env);
      DescribesPrefix(locals, CheckFrom(block, 0, locals, depth + 1, output).locals, o.env);
    }
  }

  lemma DescribesLength(locals: Locals, env: Env)
    requires Describes(locals, env)
    ensures |env| == |locals|
  {
  }

  lemma {:induction false} FromSound(
    block: seq<Stmt>, i: nat, locals: Locals, depth: nat, output: Option<Type>, env: Env, fuel: nat)
    requires Describes(locals, env) && CheckFrom(block, i, locals, depth, output).Accepted?
    requires LoopsKeepFrom(block, i, locals, depth, output)
    ensures Allowed(CheckFrom(block, i, locals, depth, output), ExecFrom(block, i, env, fuel), output,
                    SuitsFrom(block, i, TableOf(locals)))
    decreases fuel, block, |block| - i
  {
    hide CheckStatement, Exec, Describes, LoopsKeep, HasType, SuitsStatement, TableOf, Left, Ends;
    if i < |block| {
      StatementSound(block[i], locals, depth, output, env, fuel);
      StatementFalls(block[i], locals, depth, output);
      StatementTable(block[i], locals, depth, output);
      var o, v := Exec(block[i], env, fuel), CheckStatement(block[i], locals, depth, output);
      if o.Falls? {
        FromSound(block, i + 1, v.locals, depth, output, o.env, fuel);
      }
    }
  }

  /** Where branches meet, only what both initialised counts as initialised. */
  lemma BranchesSound(before: Locals, a: Locals, aFalls: bool, b: Locals, bFalls: bool, env: Env, first: bool)
    requires Keeps(before, a) && |a| == |before| && Keeps(before, b) && |b| == |before|
    requires if first then aFalls && Describes(a, env) else bFalls && Describes(b, env)
    ensures Describes(AfterBranches(before, a, aFalls, b, bFalls), env)
  {
    DescribesWeaker(if first then a else b, AfterBranches(before, a, aFalls, b, bFalls), env);
  }

  lemma {:induction false} IfSound(
    stmt: Stmt, locals: Locals, depth: nat, output: Option<Type>, env: Env, fuel: nat)
    requires stmt.If? && Describes(locals, env) && CheckStatement(stmt, locals, depth, output).Accepted?
    requires LoopsKeep(stmt, locals, depth, output)
    ensures Allowed(CheckStatement(stmt, locals, depth, output), Exec(stmt, env, fuel), output,
                    SuitsStatement(stmt, TableOf(locals)))
    decreases fuel, stmt, 0
  {
    hide TypeOf, Eval, CheckBlock, ExecFrom, Describes, AfterBranches, LoopsKeepBlock, Suits, TableOf, SuitsFrom, Truth;
    InferredTypes(stmt.condition, locals);
    ExprSound(stmt.condition, false, locals, env);
    BlockKeeps(stmt.thenBlock, locals, depth, output);
    BlockKeeps(stmt.elseBlock, locals, depth, output);
    var a, b := CheckBlock(stmt.thenBlock, locals, depth, output), CheckBlock(stmt.elseBlock, locals, depth, output);
    if Eval(stmt.condition, env) == Yields(Bool(true)) {
      BlockSound(stmt.thenBlock, locals, depth, output, env, fuel);
      var o := LeaveScope(env, ExecFrom(stmt.thenBlock, 0, env, fuel));
      if o.Falls? {
        BranchesSound(locals, a.locals, a.falls, b.locals, b.falls, o.env, true);
      }
    } else if Eval(stmt.condition, env) == Yields(Bool(false)) {
      BlockSound(stmt.elseBlock, locals, depth, output, env, fuel);
      var o := LeaveScope(env, ExecFrom(stmt.elseBlock, 0, env, fuel));
      if o.Falls? {
        BranchesSound(locals, a.locals, a.falls, b.locals, b.falls, o.env, false);
      }
    }
  }

  lemma {:induction false} WhileSound(
    stmt: Stmt, locals: Locals, depth: nat, output: Option<Type>, env: Env, fuel: nat)
    requires stmt.While? && Describes(locals, env) && CheckStatement(stmt, locals, depth, output).Accepted?
    requires LoopsKeep(stmt, locals, depth, output)
    ensures Allowed(CheckStatement(stmt, locals, depth, output), Exec(stmt, env, fuel), output,
                    SuitsStatement(stmt, TableOf(locals)))
    decreases fuel, stmt, 0
  {
    hide TypeOf, Eval, CheckBlock, ExecFrom, Describes, LoopsKeepBlock, Merged, Suits, TableOf, SuitsFrom, Truth;
    InferredTypes(stmt.condition, locals);
    ExprSound(stmt.condition, false, locals, env);
    BlockKeeps(stmt.body, locals, depth, output);
    var a := CheckBlock(stmt.body, locals, depth, output);
    var again := Merged(locals, FactsOf(locals), FactsOf(a.locals));
    if fuel > 0 && Eval(stmt.condition, env) == Yields(Bool(true)) {
      BlockSound(stmt.body, locals, depth, output, env, fuel - 1);
      var o := LeaveScope(env, ExecFrom(stmt.body, 0, env, fuel - 1));
      if o.Falls? {
        LoopEntered(locals, a.locals, o.env);
        IterationsSound(stmt, again, depth, output, o.env, fuel - 1);
      }
    } else if fuel > 0 && Eval(stmt.condition, env) == Yields(Bool(false)) {
      LoopLeft(locals, a.locals, env);
    }
  }

  /** A loop whose body keeps the facts it starts from, run from them any number of times. */
  lemma {:induction false} IterationsSound(
    stmt: Stmt, again: Locals, depth: nat, output: Option<Type>, env: Env, fuel: nat)
    requires stmt.While? && Describes(again, env) && TypeOf(stmt.condition, again).Typed?
    requires BoolConvertible(TypeOf(stmt.condition, again).t)
    requires LoopsKeepBlock(stmt.body, again, depth, output) && RunsAgain(again, CheckBlock(stmt.body, again,
                                                                                            depth, output))
    ensures Allowed(Accepted(again, true), Exec(stmt, env, fuel), output, SuitsStatement(stmt, TableOf(again)))
    decreases fuel, stmt, 0
  {
    hide TypeOf, Eval, CheckBlock, ExecFrom, Describes, LoopsKeepBlock, Suits, TableOf, SuitsFrom, Truth;
    InferredTypes(stmt.condition, again);
    ExprSound(stmt.condition, false, again, env);
    BlockKeeps(stmt.body, again, depth, output);
    if fuel > 0 && Eval(stmt.condition, env) == Yields(Bool(true)) {
      BlockSound(stmt.body, again, depth, output, env, fuel - 1);
      var o := LeaveScope(env, ExecFrom(stmt.body, 0, env, fuel - 1));
      if o.Falls? {
        AgainDescribed(again, CheckBlock(stmt.body, again, depth, output).locals, o.env);
        IterationsSound(stmt, again, depth, output, o.env, fuel - 1);
      }
    }
  }

  /** What a body leaves is described by the merged facts too, at the same types. */
  lemma LoopEntered(before: Locals, after: Locals, env: Env)
    requires Keeps(before, after) && |after| == |before| && Describes(after, env)
    ensures Describes(Merged(before, FactsOf(before), FactsOf(after)), env)
    ensures TableOf(Merged(before, FactsOf(before), FactsOf(after))) == TableOf(before)
  {
  }

  /** A loop body that keeps what was initialised can run again. */
  lemma AgainDescribed(before: Locals, after: Locals, env: Env)
    requires Keeps(before, after) && |after| == |before| && Describes(after, env)
    requires forall i :: 0 <= i < |before| && i < |after| && before[i].fact == Initialized ==> after[i].fact == Initialized
    ensures Describes(before, env)
  {
  }

  lemma LoopLeft(before: Locals, after: Locals, env: Env)
    requires Describes(before, env)
    ensures Describes(Merged(before, FactsOf(before), FactsOf(after)), env)
  {
  }

  // ----- matches -----

  /** The facts after a match are initialised only where every arm that falls through initialised them. */
  lemma {:induction false} CasesFacts(
    t: Type, cases: seq<Case>, i: nat, coverage: Coverage, merged: Option<seq<Fact>>, locals: Locals, depth: nat,
    output: Option<Type>)
    requires CheckCases(t, cases, i, coverage, merged, locals, depth, output).Accepted?
    requires merged.Some? ==> |merged.value| == |locals|
    ensures var r := CheckCases(t, cases, i, coverage, merged, locals, depth, output);
            && Keeps(locals, r.locals) && |r.locals| == |locals|
            && (merged.Some? ==>
                  && r.falls
                  && forall k :: 0 <= k < |locals| && r.locals[k].fact == Initialized ==> merged.value[k] == Initialized)
            && forall j :: i <= j < |cases| ==>
                 Analyze(t, cases[j].pattern).Some? &&
                 ArmAllows(CheckCase(cases[j], Analyze(t, cases[j].pattern).value, locals, depth, output), r, locals)
    decreases |cases| - i
  {
    hide AnalyzeNode, CheckCase, Reachable, Cover;
    if i < |cases| {
      var info := Analyze(t, cases[i].pattern).value;
      var a := CheckCase(cases[i], info, locals, depth, output);
      CaseKeeps(cases[i], info, locals, depth, output);
      CasesFacts(t, cases, i + 1, Cover(coverage, info), Gathered(merged, FactsOf(a.locals), a.falls), locals,
                 depth, output);
    }
  }

  /** What the verdict of one arm contributes to that of the match. */
  predicate ArmAllows(arm: Verdict, r: Verdict, locals: Locals)
    requires r.Accepted?
  {
    && arm.Accepted? && |arm.locals| == |locals| == |r.locals|
    && (arm.falls ==>
          && r.falls
          && forall k :: 0 <= k < |locals| && r.locals[k].fact == Initialized ==> arm.locals[k].fact == Initialized)
  }

  lemma {:induction false} MatchSound(
    stmt: Stmt, locals: Locals, depth: nat, output: Option<Type>, env: Env, fuel: nat)
    requires stmt.Match? && Describes(locals, env) && CheckStatement(stmt, locals, depth, output).Accepted?
    requires LoopsKeep(stmt, locals, depth, output)
    ensures Allowed(CheckStatement(stmt, locals, depth, output), Exec(stmt, env, fuel), output,
                    SuitsStatement(stmt, TableOf(locals)))
    decreases fuel, stmt, 0
  {
    hide TypeOf, Eval, CheckCases, CheckCase, ExecCases, ExecCase, Describes, LoopsKeepCase, HasType, Matches;
    hide AnalyzeNode;
    hide Suits, SuitsCase, TableOf, ExprTypeOf;
    var t, cases := stmt.matched, stmt.cases;
    ExprSound(stmt.scrutinee, true, locals, env);
    if Eval(stmt.scrutinee, env).Yields? {
      var v := Eval(stmt.scrutinee, env).value;
      AcceptedMatchExhaustive(t, stmt.scrutinee, cases, locals, depth, output, v);
      var j := FirstMatch(cases, 0, v).value;
      FirstCaseRuns(t, cases, 0, v, env, fuel);
      CasesFacts(t, cases, 0, Coverage(false, {}), None, locals, depth, output);
      var info := Analyze(t, cases[j].pattern).value;
      CaseSound(cases[j], t, info, locals, depth, output, v, env, fuel);
      var o := ExecCase(t, cases[j], v, env, fuel);
      var arm := CheckCase(cases[j], info, locals, depth, output);
      var r := CheckCases(t, cases, 0, Coverage(false, {}), None, locals, depth, output);
      if o.Falls? {
        CaseKeeps(cases[j], info, locals, depth, output);
        DescribesWeaker(arm.locals, r.locals, o.env);
      }
    }
  }

  lemma {:induction false} FirstCaseRuns(t: Type, cases: seq<Case>, i: nat, v: Value, env: Env, fuel: nat)
    requires HasType(v, t) && FirstMatch(cases, i, v).Some?
    requires forall j :: i <= j < |cases| ==> Analyze(t, cases[j].pattern).Some?
    ensures var j := FirstMatch(cases, i, v).value;
            Analyze(t, cases[j].pattern).Some? && ExecCases(t, cases, i, v, env, fuel) == ExecCase(t, cases[j],
                                                                                                   v, env, fuel)
    decreases |cases| - i
  {
    hide HasType, Matches, AnalyzeNode, ExecCase;
    if !Matches(cases[i].pattern, v) {
      FirstCaseRuns(t, cases, i + 1, v, env, fuel);
    }
  }

  lemma {:induction false} CaseSound(
    c: Case, t: Type, info: Info, locals: Locals, depth: nat, output: Option<Type>, v: Value, env: Env, fuel: nat)
    requires HasType(v, t) && Analyze(t, c.pattern) == Some(info) && Matches(c.pattern, v)
    requires Describes(locals, env) && CheckCase(c, info, locals, depth, output).Accepted?
    requires LoopsKeepCase(c, t, locals, depth, output)
    ensures Allowed(CheckCase(c, info, locals, depth, output), ExecCase(t, c, v, env, fuel), output,
                    SuitsCase(c, t, TableOf(locals)))
    decreases fuel, c
  {
    hide CheckBlock, ExecFrom, LoopsKeepBlock, HasType, Matches, AnalyzeNode, Bound, Describes, BoundSlots, BoundLocals;
    hide SuitsFrom, TableOf, Entries;
    AnalysisSound(t, c.pattern, [], v);
    BoundTable(locals, info.bindings, depth + 1);
    var inner := locals + BoundLocals(info.bindings, depth + 1);
    var bound := env + BoundSlots(info.bindings, Bound(c.pattern, v));
    BoundDescribed(locals, env, info.bindings, Bound(c.pattern, v), depth + 1);
    BlockSound(c.body, inner, depth, output, bound, fuel);
    BlockKeeps(c.body, inner, depth, output);
    var o := ExecFrom(c.body, 0, bound, fuel);
    if o.Falls? {
      DescribesLength(locals, env);
      DescribesLength(inner, bound);
      DescribesPrefix(locals, CheckBlock(c.body, inner, depth, output).locals, o.env[..|bound|]);
      assert o.env[..|bound|][..|locals|] == o.env[..|env|];
    }
  }

  lemma BoundDescribed(locals: Locals, env: Env, infos: seq<BindingInfo>, vs: seq<Value>, depth: nat)
    requires Describes(locals, env) && BindingsTyped(infos[0..], vs)
    ensures |infos| == |vs| && Describes(locals + BoundLocals(infos, depth), env + BoundSlots(infos, vs))
  {
    hide HasType;
    assert infos[0..] == infos;
  }
}
