/** Which statements end their path on every run: the structural rule that the emitter and the checker share. */
module Termination {
  import opened Syntax
  import opened Patterns
  import opened Source
  import opened Machine
  import opened Lowering

  /** Control never continues past the statement. */
  predicate Ends(stmt: Stmt)
    decreases stmt
  {
    match stmt
    case Return(_) => true
    case If(_, thenBlock, elseBlock) => EndsFrom(thenBlock, 0) && EndsFrom(elseBlock, 0)
    case Unsafe(body) => EndsFrom(body, 0)
    case Match(_, _, cases) => cases != [] && forall i :: 0 <= i < |cases| ==> EndsCase(cases[i])
    case _ => false
  }

  predicate EndsFrom(block: seq<Stmt>, i: nat)
    decreases block, |block| - i
  {
    i < |block| && (Ends(block[i]) || EndsFrom(block, i + 1))
  }

  predicate EndsCase(c: Case)
    decreases c
  {
    EndsFrom(c.body, 0)
  }

  /** The emitter reports a path as terminated exactly when the statement ends it. */
  lemma {:induction false} EmissionEnds(s: State, stmt: Stmt, returnsValue: bool, pops: bool)
    ensures var r := EmitStatement(s, stmt, returnsValue, pops); r.Lowered? ==> (r.terminated <==> Ends(stmt))
    decreases stmt, 1
  {
    hide EmitExpr, EmitDispatch, OpenMatch, JoinExits, OpenIf, Open, OpenWhile, Analyzed, MatchTag, Cells;
    if EmitStatement(s, stmt, returnsValue, pops).Lowered? {
      match stmt
      case Declare(_, _, _) =>
      case Assign(_, _) =>
      case Return(_) =>
      case If(c, thenBlock, elseBlock) =>
        var r := EmitExpr(s, c);
        EmissionEndsFrom(OpenIf(r.s, r.a), thenBlock, 0, returnsValue, pops);
        var y := EmitFrom(OpenIf(r.s, r.a), thenBlock, 0, returnsValue, pops);
        EmissionEndsFrom(Position(LeaveBlock(r.s, y.s, pops), |r.s.blocks| + 1), elseBlock, 0, returnsValue, pops);
      case Unsafe(body) => EmissionEndsFrom(s, body, 0, returnsValue, pops);
      case While(_, _) =>
      case Match(_, _, _) => MatchEnds(s, stmt, returnsValue, pops);
    }
  }

  lemma {:induction false} MatchEnds(s: State, stmt: Stmt, returnsValue: bool, pops: bool)
    requires stmt.Match? && EmitStatement(s, stmt, returnsValue, pops).Lowered?
    ensures EmitStatement(s, stmt, returnsValue, pops).terminated <==> Ends(stmt)
    decreases stmt, 0
  {
    hide EmitExpr, EmitDispatch, OpenMatch, JoinExits, Open, Analyzed, MatchTag, Cells, EmitArms, EndsCase;
    var t, cases := stmt.matched, stmt.cases;
    var r := EmitExpr(s, stmt.scrutinee);
    var d := EmitDispatch(OpenMatch(r.s, t, r.a, |cases|), t, cases, 0, |r.s.blocks|, Cells(r.s), MatchTag(r.s, t));
    EmissionEndsArms(d.value, cases, 0, |r.s.blocks|, Cells(r.s), returnsValue, pops);
    var a := EmitArms(d.value, cases, 0, |r.s.blocks|, Cells(r.s), returnsValue, pops);
    assert forall j :: 0 <= j < |cases| ==> (a.exits[j - 0].None? <==> EndsCase(cases[j]));
    assert forall j :: 0 <= j < |cases| ==> (a.exits[j].None? <==> EndsCase(cases[j]));
  }

  lemma {:induction false} EmissionEndsFrom(s: State, block: seq<Stmt>, i: nat, returnsValue: bool, pops: bool)
    ensures var r := EmitFrom(s, block, i, returnsValue, pops); r.Lowered? ==> (r.terminated <==> EndsFrom(block, i))
    decreases block, |block| - i
  {
    if i < |block| {
      EmissionEnds(s, block[i], returnsValue, pops);
      var r := EmitStatement(s, block[i], returnsValue, pops);
      if r.Lowered? && !r.terminated {
        EmissionEndsFrom(r.s, block, i + 1, returnsValue, pops);
      }
    }
  }

  lemma {:induction false} EmissionEndsArms(
    s: State, cases: seq<Case>, i: nat, base: nat, storage: nat, returnsValue: bool, pops: bool)
    requires i <= |cases|
    ensures var r := EmitArms(s, cases, i, base, storage, returnsValue, pops);
            r.Arms? ==> |r.exits| == |cases| - i &&
                        forall j :: i <= j < |cases| ==> (r.exits[j - i].None? <==> EndsCase(cases[j]))
    decreases cases, |cases| - i
  {
    if i < |cases| {
      EmissionEndsArm(Position(s, base + i), cases[i], storage, returnsValue, pops);
      var r := EmitArm(Position(s, base + i), cases[i], storage, returnsValue, pops);
      if r.Lowered? {
        EmissionEndsArms(r.s, cases, i + 1, base, storage, returnsValue, pops);
      }
    }
  }

  lemma {:induction false} EmissionEndsArm(s: State, c: Case, storage: nat, returnsValue: bool, pops: bool)
    ensures var r := EmitArm(s, c, storage, returnsValue, pops); r.Lowered? ==> (r.terminated <==> EndsCase(c))
    decreases c
  {
    EmissionEndsFrom(EmitBind(s, c.pattern, Place(storage, [])), c.body, 0, returnsValue, pops);
  }

  /** No run falls through a statement that ends its path. */
  lemma {:induction false} EndedNeverFalls(stmt: Stmt, env: Env, fuel: nat)
    requires Ends(stmt)
    ensures !Exec(stmt, env, fuel).Falls?
    decreases fuel, stmt
  {
    match stmt
    case Return(_) =>
    case If(_, thenBlock, elseBlock) =>
      EndedNeverFallsFrom(thenBlock, 0, env, fuel);
      EndedNeverFallsFrom(elseBlock, 0, env, fuel);
    case Unsafe(body) => EndedNeverFallsFrom(body, 0, env, fuel);
    case Match(t, scrutinee, cases) =>
      var r := Eval(scrutinee, env);
      if r.Yields? && HasType(r.value, t) {
        EndedNeverFallsCases(t, cases, 0, r.value, env, fuel);
      }
  }

  lemma {:induction false} EndedNeverFallsFrom(block: seq<Stmt>, i: nat, env: Env, fuel: nat)
    requires EndsFrom(block, i)
    ensures !ExecFrom(block, i, env, fuel).Falls?
    decreases fuel, block, |block| - i
  {
    var r := Exec(block[i], env, fuel);
    if Ends(block[i]) {
      EndedNeverFalls(block[i], env, fuel);
    } else if r.Falls? {
      EndedNeverFallsFrom(block, i + 1, r.env, fuel);
    }
  }

  lemma {:induction false} EndedNeverFallsCases(t: Type, cases: seq<Case>, i: nat, v: Value, env: Env, fuel: nat)
    requires HasType(v, t) && forall j :: i <= j < |cases| ==> EndsCase(cases[j])
    ensures !ExecCases(t, cases, i, v, env, fuel).Falls?
    decreases fuel, cases, |cases| - i
  {
    if i < |cases| && Analyze(t, cases[i].pattern).Some? {
      if Matches(cases[i].pattern, v) {
        EndedNeverFallsCase(t, cases[i], v, env, fuel);
      } else {
        EndedNeverFallsCases(t, cases, i + 1, v, env, fuel);
      }
    }
  }

  lemma {:induction false} EndedNeverFallsCase(t: Type, c: Case, v: Value, env: Env, fuel: nat)
    requires HasType(v, t) && Analyze(t, c.pattern).Some? && Matches(c.pattern, v) && EndsCase(c)
    ensures !ExecCase(t, c, v, env, fuel).Falls?
    decreases fuel, c
  {
    AnalysisSound(t, c.pattern, [], v);
    EndedNeverFallsFrom(
      c.body, 0, env + BoundSlots(Analyze(t, c.pattern).value.bindings, Bound(c.pattern, v)), fuel);
  }
}
