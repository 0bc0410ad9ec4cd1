/**
 Big-step meaning of the body fragment over a stack of named slots. A slot without a value is not
 initialised, or has been moved away; reading it, like any other ill-formed step, is `Wrong`. The checker lets an
 integer stand where a truth value is needed; such a body is not lowered unless it uses a name left over from a
 nested block, and its runs end there, undecided.
 */
module Source {
  import opened Integers
  import opened Options
  import opened Syntax
  import opened Patterns

  datatype Slot = Slot(name: string, t: Type, value: Option<Value>)

  type Env = seq<Slot>

  function Names(env: Env): (names: seq<string>)
    ensures |names| == |env|
    ensures forall i :: 0 <= i < |env| ==> names[i] == env[i].name
  {
    seq(|env|, i requires 0 <= i < |env| => env[i].name)
  }

  // ----- expressions -----

  datatype Evaluated = Yields(value: Value) | Aborts | NotBoolean | Wrong

  function Eval(e: Expr, env: Env): Evaluated {
    match e
    case IntLiteral(t, n) => Yields(FromInteger(n, t))
    case BoolLiteral(b) => Yields(Bool(b))
    case Read(x, path) => ReadSlot(env, x, path)
    case Convert(from, to, operand) =>
      (match Eval(operand, env)
       case Yields(v) => if IsInteger(v, from) then Yields(FromInteger(ToInteger(v, from), to)) else Wrong
       case other => other)
    case Arith(op, t, left, right) =>
      (match Eval(left, env)
       case Yields(v) => (match Eval(right, env)
                          case Yields(w) => EvalArith(op, t, v, w)
                          case other => other)
       case other => other)
    case Compare(cmp, t, left, right) =>
      (match Eval(left, env)
       case Yields(v) =>
         (match Eval(right, env)
          case Yields(w) =>
            if IsInteger(v, t) && IsInteger(w, t)
            then Yields(Bool(SourceCompare(cmp, ToInteger(v, t), ToInteger(w, t))))
            else Wrong
          case other => other)
       case other => other)
    case SameBool(negated, left, right) =>
      (match Eval(left, env)
       case Yields(v) => (match Eval(right, env)
                          case Yields(w) =>
                            if IsBool(v) && IsBool(w) then Yields(Bool((v == w) != negated)) else Wrong
                          case other => other)
       case other => other)
    case And(left, right) =>
      (match Eval(left, env)
       case Yields(v) => if v == Bool(true) then AsBool(Eval(right, env)) else if v == Bool(false) then Yields(v) else NoTruth(v)
       case other => other)
    case Or(left, right) =>
      (match Eval(left, env)
       case Yields(v) => if v == Bool(false) then AsBool(Eval(right, env)) else if v == Bool(true) then Yields(v) else NoTruth(v)
       case other => other)
    case Not(operand) =>
      (match Eval(operand, env)
       case Yields(v) => if IsBool(v) then Yields(Bool(v == Bool(false))) else NoTruth(v)
       case other => other)
    case Negate(t, operand) =>
      (match Eval(operand, env)
       case Yields(v) => EvalArith(Subtract, t, FromInteger(0, t), v)
       case other => other)
    case BitNot(t, operand) =>
      (match Eval(operand, env)
       case Yields(v) =>
         if !IsInteger(v, t) then Wrong
         else Yields(FromInteger(if t.signed then -ToInteger(v, t) - 1 else Max(t) - ToInteger(v, t), t))
       case other => other)
  }

  function ReadSlot(env: Env, x: string, path: seq<nat>): Evaluated {
    match Newest(Names(env), x)
    case None => Wrong
    case Some(i) =>
      match env[i].value
      case None => Wrong
      case Some(v) =>
        match Project(v, path)
        case None => Wrong
        case Some(w) => Yields(w)
  }

  function EvalArith(op: ArithOp, t: IntType, v: Value, w: Value): Evaluated {
    if !IsInteger(v, t) || !IsInteger(w, t) then Wrong else
    match SourceArith(op, t, ToInteger(v, t), ToInteger(w, t))
    case Overflow => Aborts
    case Fits(r) => Yields(FromInteger(r, t))
  }

  /** The right operand of a short-circuit operator must itself be a boolean. */
  function AsBool(r: Evaluated): Evaluated {
    if r.Yields? && !IsBool(r.value) then NoTruth(r.value) else r
  }

  /** A value used as a truth value without being one. */
  function NoTruth(v: Value): Evaluated {
    if v.Bits? then NotBoolean else Wrong
  }

  // ----- statements -----

  datatype Outcome =
    | Falls(env: Env)
    | Returned(value: Option<Value>)
    | Trapped
    | Undecided
    | Stuck
    | Timeout

  /** A later stack that still holds the slots of an earlier one, possibly with other values. */
  predicate Extends(env: Env, later: Env) {
    && |env| <= |later|
    && forall i :: 0 <= i < |env| ==> later[i].name == env[i].name && later[i].t == env[i].t
  }

  /** The slot an expression moves from when its value is copied to slot `dest`, if any. */
  function MovedSlot(e: Expr, env: Env, dest: Option<nat>): Option<nat> {
    if e.Read? && e.path == [] then
      match Newest(Names(env), e.name)
      case None => None
      case Some(i) => if dest == Some(i) || !MoveOnly(env[i].t) then None else Some(i)
    else None
  }

  function AfterMove(e: Expr, env: Env, dest: Option<nat>): (later: Env)
    ensures Extends(env, later) && |later| == |env|
  {
    match MovedSlot(e, env, dest)
    case None => env
    case Some(i) => env[i := env[i].(value := None)]
  }

  function ExecAssign(x: string, e: Expr, env: Env): (r: Outcome)
    ensures r.Falls? ==> Extends(env, r.env)
  {
    match Newest(Names(env), x)
    case None => Stuck
    case Some(i) =>
      match Eval(e, env)
      case Wrong => Stuck
      case NotBoolean => Undecided
      case Aborts => Trapped
      case Yields(v) =>
        var moved := AfterMove(e, env, Some(i));
        Falls(moved[i := moved[i].(value := Some(v))])
  }

  /** Leaves a nested block: its own slots go out of scope. */
  function LeaveScope(env: Env, r: Outcome): (left: Outcome)
    requires r.Falls? ==> Extends(env, r.env)
    ensures left.Falls? ==> Extends(env, left.env) && |left.env| == |env|
  {
    if r.Falls? then Falls(r.env[..|env|]) else r
  }

  /** A condition that came out as something other than a truth value. */
  function Unconditional(v: Value): (r: Outcome)
    ensures !r.Falls?
  {
    if v.Bits? then Undecided else Stuck
  }

  /** The slots a matched pattern introduces. */
  function BoundSlots(infos: seq<BindingInfo>, vs: seq<Value>): (slots: Env)
    requires |infos| == |vs|
    ensures |slots| == |vs|
    ensures forall i :: 0 <= i < |vs| ==> slots[i] == Slot(infos[i].name, infos[i].t, Some(vs[i]))
  {
    seq(|vs|, i requires 0 <= i < |vs| => Slot(infos[i].name, infos[i].t, Some(vs[i])))
  }

  /** Runs one statement; each loop iteration spends one unit of `fuel`. */
  function Exec(s: Stmt, env: Env, fuel: nat): (r: Outcome)
    ensures r.Falls? ==> Extends(env, r.env)
    decreases fuel, s
  {
    match s
    case Declare(x, t, _) => Falls(env + [Slot(x, t, None)])
    case Assign(x, e) => ExecAssign(x, e, env)
    case Return(None) => Returned(None)
    case Return(Some(e)) =>
      (match Eval(e, env)
       case Wrong => Stuck
       case NotBoolean => Undecided
       case Aborts => Trapped
       case Yields(v) => Returned(Some(v)))
    case If(c, thenBlock, elseBlock) =>
      (match Eval(c, env)
       case Wrong => Stuck
       case NotBoolean => Undecided
       case Aborts => Trapped
       case Yields(v) =>
         if v == Bool(true) then LeaveScope(env, ExecFrom(thenBlock, 0, env, fuel))
         else if v == Bool(false) then LeaveScope(env, ExecFrom(elseBlock, 0, env, fuel))
         else Unconditional(v))
    case While(c, body) =>
      if fuel == 0 then Timeout else
      (match Eval(c, env)
       case Wrong => Stuck
       case NotBoolean => Undecided
       case Aborts => Trapped
       case Yields(v) =>
         if v == Bool(true) then
           (match LeaveScope(env, ExecFrom(body, 0, env, fuel - 1))
            case Falls(next) => Exec(s, next, fuel - 1)
            case other => other)
         else if v == Bool(false) then Falls(env)
         else Unconditional(v))
    case Unsafe(body) => LeaveScope(env, ExecFrom(body, 0, env, fuel))
    case Match(t, scrutinee, cases) =>
      match Eval(scrutinee, env)
      case Wrong => Stuck
      case NotBoolean => Undecided
      case Aborts => Trapped
      case Yields(v) => if HasType(v, t) then ExecCases(t, cases, 0, v, env, fuel) else Stuck
  }

  function ExecFrom(block: seq<Stmt>, i: nat, env: Env, fuel: nat): (r: Outcome)
    ensures r.Falls? ==> Extends(env, r.env)
    decreases fuel, block, |block| - i
  {
    if i >= |block| then Falls(env)
    else
      match Exec(block[i], env, fuel)
      case Falls(next) => ExecFrom(block, i + 1, next, fuel)
      case other => other
  }

  /** Enters the first case whose pattern matches. */
  function ExecCases(t: Type, cases: seq<Case>, i: nat, v: Value, env: Env, fuel: nat): (r: Outcome)
    requires HasType(v, t)
    ensures r.Falls? ==> Extends(env, r.env)
    decreases fuel, cases, |cases| - i
  {
    if i >= |cases| then Stuck
    else if Analyze(t, cases[i].pattern).None? then Stuck
    else if Matches(cases[i].pattern, v) then ExecCase(t, cases[i], v, env, fuel)
    else ExecCases(t, cases, i + 1, v, env, fuel)
  }

  function ExecCase(t: Type, c: Case, v: Value, env: Env, fuel: nat): (r: Outcome)
    requires HasType(v, t) && Analyze(t, c.pattern).Some? && Matches(c.pattern, v)
    ensures r.Falls? ==> Extends(env, r.env)
    decreases fuel, c
  {
    AnalysisSound(t, c.pattern, [], v);
    var bound := env + BoundSlots(Analyze(t, c.pattern).value.bindings, Bound(c.pattern, v));
    LeaveScope(env, ExecFrom(c.body, 0, bound, fuel))
  }

  // ----- fuel -----

  /** More fuel never changes a run that has ended. */
  lemma {:induction false} FuelMonotone(s: Stmt, env: Env, fuel: nat, more: nat)
    requires fuel <= more && !Exec(s, env, fuel).Timeout?
    ensures Exec(s, env, more) == Exec(s, env, fuel)
    decreases fuel, s
  {
    match s
    case Declare(_, _, _) =>
    case Assign(_, _) =>
    case Return(_) =>
    case If(c, thenBlock, elseBlock) =>
      if Eval(c, env) == Yields(Bool(true)) {
        FuelMonotoneFrom(thenBlock, 0, env, fuel, more);
      } else if Eval(c, env) == Yields(Bool(false)) {
        FuelMonotoneFrom(elseBlock, 0, env, fuel, more);
      }
    case While(c, body) =>
      if Eval(c, env) == Yields(Bool(true)) {
        FuelMonotoneFrom(body, 0, env, fuel - 1, more - 1);
        var r := LeaveScope(env, ExecFrom(body, 0, env, fuel - 1));
        if r.Falls? {
          FuelMonotone(s, r.env, fuel - 1, more - 1);
        }
      }
    case Unsafe(body) => FuelMonotoneFrom(body, 0, env, fuel, more);
    case Match(t, scrutinee, cases) =>
      var r := Eval(scrutinee, env);
      if r.Yields? && HasType(r.value, t) {
        FuelMonotoneCases(t, cases, 0, r.value, env, fuel, more);
      }
  }

  lemma {:induction false} FuelMonotoneFrom(block: seq<Stmt>, i: nat, env: Env, fuel: nat, more: nat)
    requires fuel <= more && !ExecFrom(block, i, env, fuel).Timeout?
    ensures ExecFrom(block, i, env, more) == ExecFrom(block, i, env, fuel)
    decreases fuel, block, |block| - i
  {
    if i < |block| {
      FuelMonotone(block[i], env, fuel, more);
      var r := Exec(block[i], env, fuel);
      if r.Falls? {
        FuelMonotoneFrom(block, i + 1, r.env, fuel, more);
      }
    }
  }

  lemma {:induction false} FuelMonotoneCases(
    t: Type, cases: seq<Case>, i: nat, v: Value, env: Env, fuel: nat, more: nat)
    requires HasType(v, t) && fuel <= more && !ExecCases(t, cases, i, v, env, fuel).Timeout?
    ensures ExecCases(t, cases, i, v, env, more) == ExecCases(t, cases, i, v, env, fuel)
    decreases fuel, cases, |cases| - i
  {
    if i < |cases| && Analyze(t, cases[i].pattern).Some? {
      if Matches(cases[i].pattern, v) {
        FuelMonotoneCase(t, cases[i], v, env, fuel, more);
      } else {
        FuelMonotoneCases(t, cases, i + 1, v, env, fuel, more);
      }
    }
  }

  lemma {:induction false} FuelMonotoneCase(t: Type, c: Case, v: Value, env: Env, fuel: nat, more: nat)
    requires HasType(v, t) && Analyze(t, c.pattern).Some? && Matches(c.pattern, v)
    requires fuel <= more && !ExecCase(t, c, v, env, fuel).Timeout?
    ensures ExecCase(t, c, v, env, more) == ExecCase(t, c, v, env, fuel)
    decreases fuel, c
  {
    AnalysisSound(t, c.pattern, [], v);
    var bound := env + BoundSlots(Analyze(t, c.pattern).value.bindings, Bound(c.pattern, v));
    FuelMonotoneFrom(c.body, 0, bound, fuel, more);
  }
}
