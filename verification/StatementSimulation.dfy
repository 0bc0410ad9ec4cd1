/**
 Running a lowered body has the outcome of the source body: the same store at the new insertion point, the
 same returned value, a trap exactly where the source traps, and no end where the source does not end.
 Emission here forgets the names of a nested block when the block ends (`pops`).
 */
module StatementSimulation {
  import opened MachineIntegers
  import opened Options
  import opened Syntax
  import opened Patterns
  import opened Source
  import opened Machine
  import opened Lowering
  import opened LoweringFrame
  import opened StatementFrame
  import opened Simulation
  import opened ExprSimulation
  import opened PatternSimulation

  // ----- relating outcomes -----

  /** What the machine does from `c`, given the source outcome `o` reached with `fuel` loop iterations. */
  ghost predicate Outcomes(g: Graph, c: Config, r: Lowered, d: Config, o: Outcome, fuel: nat)
    requires r.Lowered?
  {
    match o
    case Falls(env) =>
      !r.terminated && Reaches(g, c, 0, d) && AtEnd(r.s, d) && Backed(g, d) && Matched(env, r.s.locals, d)
    case Returned(v) => Stops(g, c, Finished(v))
    case Trapped => Stops(g, c, TrapStop)
    case Timeout => Reaches(g, c, fuel, d)
    case Undecided => true
    case Stuck => true
  }

  lemma OutcomesAfter(g: Graph, c: Config, m: nat, d: Config, r: Lowered, e: Config, o: Outcome, fuel: nat)
    requires r.Lowered? && Reaches(g, c, m, d) && Outcomes(g, d, r, e, o, fuel)
    ensures Outcomes(g, c, r, e, o, fuel)
    ensures o.Timeout? ==> Reaches(g, c, m + fuel, e)
  {
    match o
    case Falls(_) =>
      ReachesThrough(g, c, m, d, 0, e);
      ReachesFewer(g, c, m, 0, e);
    case Returned(v) => StopsThrough(g, c, m, d, Finished(v));
    case Trapped => StopsThrough(g, c, m, d, TrapStop);
    case Timeout =>
      ReachesThrough(g, c, m, d, fuel, e);
      ReachesFewer(g, c, m + fuel, fuel, e);
    case Undecided =>
    case Stuck =>
  }

  lemma MatchedPrefix(env: Env, next: Env, locals: seq<Local>, later: seq<Local>, c: Config)
    requires locals <= later && |env| == |locals| && Matched(next, later, c)
    ensures |env| <= |next| && Matched(next[..|env|], locals, c)
  {
  }

  // ----- the local table along statements -----

  lemma {:induction false} JoinExitsLocals(s: State, exits: seq<Option<nat>>, i: nat, merge: nat)
    ensures var u := JoinExits(s, exits, i, merge);
            u.locals == s.locals && Cells(u) == Cells(s) && |u.blocks| == |s.blocks|
    decreases |exits| - i
  {
    if i < |exits| {
      JoinExitsLocals(if exits[i].Some? then End(Position(s, exits[i].value), Br(merge)) else s, exits, i + 1, merge);
    }
  }

  lemma JoinArmsLocals(s: State, exits: seq<Option<nat>>)
    ensures JoinArms(s, exits).Lowered? && JoinArms(s, exits).s.locals == s.locals
  {
    JoinExitsLocals(NewBlock(s), exits, 0, |s.blocks|);
  }

  lemma {:induction false} EmitArmsLocals(
    s: State, cases: seq<Case>, i: nat, base: nat, storage: nat, returnsValue: bool, pops: bool)
    ensures var r := EmitArms(s, cases, i, base, storage, returnsValue, pops);
            r.Arms? ==> r.s.locals == s.locals
    decreases |cases| - i
  {
    hide EmitFrom, EmitBind;
    if i < |cases| {
      var r := EmitArm(Position(s, base + i), cases[i], storage, returnsValue, pops);
      if r.Lowered? {
        EmitArmsLocals(r.s, cases, i + 1, base, storage, returnsValue, pops);
      }
    }
  }

  lemma {:induction false} EmitDispatchLocals(
    s: State, t: Type, cases: seq<Case>, i: nat, base: nat, storage: nat, tag: Option<Operand>)
    requires Open(s) && 0 < base && base + |cases| <= |s.blocks|
    ensures var r := EmitDispatch(s, t, cases, i, base, storage, tag); r.Some? ==> r.value.locals == s.locals
  {
    hide EmitDispatch, Touches;
    EmitDispatchFrame(s, t, cases, i, base, storage, tag);
  }

  /** With popping, only a declaration changes the local table, by one name. */
  lemma StatementLocals(s: State, stmt: Stmt, returnsValue: bool)
    requires LocalsOk(s) && EmitStatement(s, stmt, returnsValue, true).Lowered?
    ensures var r := EmitStatement(s, stmt, returnsValue, true);
            && LocalsOk(r.s) && s.locals <= r.s.locals
            && (!stmt.Declare? ==> r.s.locals == s.locals)
  {
    hide EmitExpr, EmitFrom, EmitDispatch, EmitArms, JoinArms, JoinIf, OpenMatch, Touches;
    EmitStatementFrame(s, stmt, returnsValue, true);
    var r := EmitStatement(s, stmt, returnsValue, true);
    FlowCells(s, r.s, r.terminated);
    match stmt
    case Declare(_, _, _) =>
    case Assign(_, e) => EmitExprFrame(s, e);
    case Return(None) =>
    case Return(Some(e)) => EmitExprFrame(s, e);
    case If(_, _, _) => IfLocals(s, stmt, returnsValue);
    case Unsafe(_) =>
    case While(_, _) =>
    case Match(_, _, _) => MatchLocals(s, stmt, returnsValue);
  }

  lemma FlowCells(s: State, t: State, done: bool)
    requires Flow(s, t, done)
    ensures Cells(s) <= Cells(t) && s.registers <= t.registers && |s.blocks| <= |t.blocks|
  {
  }

  lemma IfLocals(s: State, stmt: Stmt, returnsValue: bool)
    requires stmt.If? && EmitStatement(s, stmt, returnsValue, true).Lowered?
    ensures EmitStatement(s, stmt, returnsValue, true).s.locals == s.locals
  {
    hide EmitExpr, EmitFrom, OpenIf, JoinIf, JoinArms, Touches;
    EmitExprFrame(s, stmt.condition);
    var r := EmitExpr(s, stmt.condition);
    var y := EmitFrom(OpenIf(r.s, r.a), stmt.thenBlock, 0, returnsValue, true);
    var n := EmitFrom(Position(LeaveBlock(r.s, y.s, true), |r.s.blocks| + 1), stmt.elseBlock, 0, returnsValue, true);
    JoinIfIsJoinArms(LeaveBlock(r.s, n.s, true), ExitOf(y), ExitOf(n));
    JoinArmsLocals(LeaveBlock(r.s, n.s, true), [ExitOf(y), ExitOf(n)]);
  }

  lemma MatchLocals(s: State, stmt: Stmt, returnsValue: bool)
    requires stmt.Match? && EmitStatement(s, stmt, returnsValue, true).Lowered?
    ensures EmitStatement(s, stmt, returnsValue, true).s.locals == s.locals
  {
    hide EmitExpr, OpenMatch, EmitDispatch, EmitArms, JoinArms, Touches;
    var cases := stmt.cases;
    EmitExprFrame(s, stmt.scrutinee);
    var r := EmitExpr(s, stmt.scrutinee);
    var s2 := OpenMatch(r.s, stmt.matched, r.a, |cases|);
    OpenMatchFrame(r.s, stmt.matched, r.a, |cases|);
    OpenMember(r.s, s2, {r.s.at} + Ids(|r.s.blocks|, |cases|));
    var d := EmitDispatch(s2, stmt.matched, cases, 0, |r.s.blocks|, Cells(r.s), MatchTag(r.s, stmt.matched));
    EmitDispatchLocals(s2, stmt.matched, cases, 0, |r.s.blocks|, Cells(r.s), MatchTag(r.s, stmt.matched));
    EmitArmsLocals(d.value, cases, 0, |r.s.blocks|, Cells(r.s), returnsValue, true);
    var a := EmitArms(d.value, cases, 0, |r.s.blocks|, Cells(r.s), returnsValue, true);
    JoinArmsLocals(a.s, a.exits);
  }

  // ----- joins -----

  /** Exits are body blocks still waiting for a terminator. */
  predicate ExitsOpen(s: State, exits: seq<Option<nat>>, i: nat) {
    forall j :: i <= j < |exits| && exits[j].Some? ==>
      0 < exits[j].value < |s.blocks| && s.blocks[exits[j].value].end.None?
  }

  lemma {:induction false} JoinExitsCompletes(g: Graph, s: State, exits: seq<Option<nat>>, i: nat, merge: nat)
    requires i <= |exits| && DistinctExits(exits) && ExitsOpen(s, exits, i)
    requires Completes(g, JoinExits(s, exits, i, merge))
    ensures Completes(g, s) && |JoinExits(s, exits, i, merge).blocks| == |s.blocks|
    ensures forall j :: i <= j < |exits| && exits[j].Some? ==>
              g[exits[j].value] == Block(s.blocks[exits[j].value].body, Some(Br(merge)))
    ensures forall b :: 0 < b < |s.blocks| && (forall j :: i <= j < |exits| ==> exits[j] != Some(b)) ==>
              JoinExits(s, exits, i, merge).blocks[b] == s.blocks[b]
    decreases |exits| - i
  {
    JoinExitsLocals(s, exits, i, merge);
    if i < |exits| {
      if exits[i].Some? {
        var e := exits[i].value;
        var t := End(Position(s, e), Br(merge));
        JoinExitsCompletes(g, t, exits, i + 1, merge);
        assert g[e] == t.blocks[e];
        forall j | i < j < |exits| && exits[j].Some?
          ensures t.blocks[exits[j].value] == s.blocks[exits[j].value]
        {
          assert exits[i] != exits[j];
        }
      } else {
        JoinExitsCompletes(g, s, exits, i + 1, merge);
      }
    }
  }

  /** Joined paths: every exit branches to the empty merge block, where emission continues. */
  lemma JoinArmsCompletes(g: Graph, s: State, exits: seq<Option<nat>>)
    requires DistinctExits(exits) && ExitsOpen(s, exits, 0) && Completes(g, JoinArms(s, exits).s)
    ensures Completes(g, s)
    ensures var r := JoinArms(s, exits);
            && (r.terminated <==> forall j :: 0 <= j < |exits| ==> exits[j].None?)
            && (!r.terminated ==> r.s.at == |s.blocks| && r.s.blocks[r.s.at] == Block([], None))
    ensures forall j :: 0 <= j < |exits| && exits[j].Some? ==>
              g[exits[j].value] == Block(s.blocks[exits[j].value].body, Some(Br(|s.blocks|)))
  {
    var r := JoinArms(s, exits);
    if !r.terminated {
      var joined := JoinExits(NewBlock(s), exits, 0, |s.blocks|);
      assert Completes(g, joined);
      JoinExitsLocals(NewBlock(s), exits, 0, |s.blocks|);
      JoinExitsCompletes(g, NewBlock(s), exits, 0, |s.blocks|);
      assert NewBlock(s).blocks[|s.blocks|] == Block([], None);
      assert forall b :: 0 <= b < |s.blocks| ==> NewBlock(s).blocks[b] == s.blocks[b];
    }
  }

  /** A path that ends at an exit continues at the merge block. */
  lemma ExitGoes(g: Graph, c: Config, merge: nat) returns (d: Config)
    requires c.block < |g| && g[c.block].end == Some(Br(merge)) && c.pc == |g[c.block].body| && Backed(g, c)
    ensures Reaches(g, c, 1, d) && d == c.(block := merge, pc := 0) && Backed(g, d)
  {
    d := c.(block := merge, pc := 0);
    ReachesStep(g, c, d);
  }

  // ----- simple statements -----

  lemma CompletesBlocks(g: Graph, s: State, t: State)
    requires Completes(g, s) && t.blocks == s.blocks
    ensures Completes(g, t)
  {
  }

  lemma EndEarlier(g: Graph, s: State, end: Terminator)
    requires Open(s) && Completes(g, End(s, end))
    ensures Completes(g, s)
  {
    assert End(s, end).blocks[s.at].body == s.blocks[s.at].body;
  }

  lemma AssignGoes(g: Graph, s: State, c: Config, x: string, e: Expr, env: Env, returnsValue: bool, fuel: nat)
    returns (d: Config)
    requires Ready(g, s, c) && LocalsOk(s) && Matched(env, s.locals, c)
    requires EmitStatement(s, Assign(x, e), returnsValue, true).Lowered?
    requires Completes(g, EmitStatement(s, Assign(x, e), returnsValue, true).s)
    ensures Outcomes(g, c, EmitStatement(s, Assign(x, e), returnsValue, true), d, ExecAssign(x, e, env), fuel)
  {
    hide EmitExpr, Eval, Touches;
    NamesAgree(env, s.locals, c);
    var i := Newest(LocalNames(s.locals), x).value;
    var r := EmitExpr(s, e);
    var cell := s.locals[i].cell;
    EmitExprFrame(s, e);
    var u := Put(r.s, Store(cell, r.a));
    assert Completes(g, r.s) by {
      assert r.s.blocks[r.s.at].body <= u.blocks[r.s.at].body;
    }
    d := ExprGoes(g, s, c, e, env);
    if Eval(e, env).Yields? {
      var v := Eval(e, env).value;
      MatchedAfter(env, g, s, c, r.s, d);
      CellExists(g, r.s, d, cell);
      var d2 := StoreGoes(g, r.s, d, Store(cell, r.a), cell, v);
      ReachesThrough(g, c, 0, d, 0, d2);
      d := d2;
      AssignMatched(e, env, s, i, r.s, v, d2);
    }
  }

  lemma CellExists(g: Graph, s: State, c: Config, k: nat)
    requires Completes(g, s) && Backed(g, c) && k < Cells(s)
    ensures k in c.cells
  {
    assert s.blocks[0].body <= g[0].body;
  }

  /** Storing to one name's cell changes that slot alone; moving out of another slot only forgets it. */
  lemma AssignMatched(e: Expr, env: Env, s: State, i: nat, t: State, v: Value, d: Config)
    requires i < |env| && LocalsOk(t) && t.locals == s.locals && |env| == |t.locals| && t.locals[i].cell in d.cells
    requires forall j :: 0 <= j < |env| ==>
               && env[j].name == t.locals[j].name
               && (j != i && env[j].value.Some? ==>
                     t.locals[j].cell in d.cells && d.cells[t.locals[j].cell] == env[j].value)
    requires d.cells[t.locals[i].cell] == Some(v)
    ensures var moved := AfterMove(e, env, Some(i));
            Matched(moved[i := moved[i].(value := Some(v))], t.locals, d)
  {
  }

  lemma ReturnGoes(g: Graph, s: State, c: Config, e: Expr, env: Env, fuel: nat) returns (d: Config)
    requires Ready(g, s, c) && LocalsOk(s) && Matched(env, s.locals, c)
    requires EmitStatement(s, Return(Some(e)), true, true).Lowered?
    requires Completes(g, EmitStatement(s, Return(Some(e)), true, true).s)
    ensures Outcomes(g, c, EmitStatement(s, Return(Some(e)), true, true), d, Exec(Return(Some(e)), env, fuel), fuel)
  {
    hide EmitExpr, Eval, Touches, Completes, AtEnd, Backed, Goes, Stops, Matched, LocalsOk;
    var r := EmitExpr(s, e);
    EmitExprFrame(s, e);
    EndEarlier(g, r.s, Ret(r.a));
    d := ExprGoes(g, s, c, e, env);
    if Eval(e, env).Yields? {
      GoesAt(g, s, c, r.s, d);
      EndStops(g, r.s, d, Ret(r.a), Finished(Some(Eval(e, env).value)));
      StopsThrough(g, c, 0, d, Finished(Some(Eval(e, env).value)));
    }
  }

  // ----- conditionals -----

  /** The states of a conditional, given the graph that completes its join. */
  ghost predicate IfCompleted(g: Graph, s1: State, a: Operand, y: Lowered, s3i: State, n: Lowered)
    requires y.Lowered? && n.Lowered?
  {
    var u, merge := OpenIf(s1, a), |n.s.blocks|;
    && Open(u) && Open(s3i) && Completes(g, s1) && Completes(g, u) && Completes(g, y.s) && Completes(g, s3i)
    && Completes(g, n.s) && s3i.at == |s1.blocks| + 1 && s3i.blocks[s3i.at].body == []
    && (!y.terminated ==> g[y.s.at] == Block(y.s.blocks[y.s.at].body, Some(Br(merge))))
    && (!n.terminated ==> g[n.s.at] == Block(n.s.blocks[n.s.at].body, Some(Br(merge))))
  }

  lemma IfStates(g: Graph, s1: State, a: Operand, y: Lowered, s3i: State, n: Lowered)
    requires Open(s1) && y.Lowered? && n.Lowered?
    requires Flow(OpenIf(s1, a), y.s, y.terminated)
    requires s3i == Position(KeepLocals(s1, y.s), |s1.blocks| + 1) && Flow(s3i, n.s, n.terminated)
    requires Completes(g, JoinIf(KeepLocals(s1, n.s), ExitOf(y), ExitOf(n)).s)
    ensures IfCompleted(g, s1, a, y, s3i, n)
    ensures var r := JoinIf(KeepLocals(s1, n.s), ExitOf(y), ExitOf(n));
            && (r.terminated <==> y.terminated && n.terminated)
            && r.s.locals == s1.locals
            && (!r.terminated ==> r.s.at == |n.s.blocks| && r.s.blocks[r.s.at] == Block([], None))
  {
    hide JoinIf, JoinArms, OpenIf, ExitSet, Completes;
    var u, exits, joined := OpenIf(s1, a), [ExitOf(y), ExitOf(n)], KeepLocals(s1, n.s);
    OpenIfFrame(s1, a);
    IfElseAt(s1, a, y.s, y.terminated, s3i);
    BranchesFrame(s1, a, y.s, y.terminated, s3i, n.s, n.terminated);
    JoinIfIsJoinArms(joined, ExitOf(y), ExitOf(n));
    JoinArmsLocals(joined, exits);
    IfExits(s1, a, y, s3i, n);
    JoinArmsCompletes(g, joined, exits);
    assert exits[0] == ExitOf(y) && exits[1] == ExitOf(n);
    CompletesBlocks(g, joined, n.s);
    CompletesEarlier(g, s3i, n.s, Exit(n.s, n.terminated));
    CompletesBlocks(g, s3i, y.s);
    CompletesEarlier(g, u, y.s, Exit(y.s, y.terminated));
    CompletesEarlier(g, s1, u, {|s1.blocks|, |s1.blocks| + 1});
  }

  lemma IfExits(s1: State, a: Operand, y: Lowered, s3i: State, n: Lowered)
    requires Open(s1) && y.Lowered? && n.Lowered?
    requires Flow(OpenIf(s1, a), y.s, y.terminated)
    requires s3i == Position(KeepLocals(s1, y.s), |s1.blocks| + 1) && Flow(s3i, n.s, n.terminated)
    ensures ExitsOpen(n.s, [ExitOf(y), ExitOf(n)], 0)
    ensures !y.terminated ==> n.s.blocks[y.s.at] == y.s.blocks[y.s.at]
    ensures s3i.at == |s1.blocks| + 1 && s3i.blocks[s3i.at].body == []
  {
    var no := |s1.blocks| + 1;
    OpenIfFrame(s1, a);
    assert OpenIf(s1, a).blocks[no] == Block([], None);
    assert y.s.at != no;
  }

  /** The condition selects the branch. */
  lemma IfEnters(g: Graph, s: State, c: Config, a: Operand, b: bool) returns (d: Config)
    requires Ready(g, s, c) && Holds(a, s, c, Bool(b)) && Completes(g, OpenIf(s, a))
    ensures Reaches(g, c, 0, d) && Backed(g, d) && d == c.(block := if b then |s.blocks| else |s.blocks| + 1, pc := 0)
    ensures b ==> AtEnd(OpenIf(s, a), d)
  {
    var yes := |s.blocks|;
    var waiting := NewBlock(NewBlock(s));
    CompletesBlocks(g, OpenIf(s, a), End(waiting, CondBr(a, yes, yes + 1)));
    d := EndGoes(g, waiting, c, CondBr(a, yes, yes + 1), if b then yes else yes + 1);
    ReachesFewer(g, c, 1, 0, d);
  }

  /** A branch that falls through continues at the merge block with the outer slots. */
  lemma BranchLeaves(
    g: Graph, c: Config, branch: Lowered, d: Config, o: Outcome, env: Env, locals: seq<Local>, r: Lowered, fuel: nat,
    merge: nat)
    returns (e: Config)
    requires branch.Lowered? && Outcomes(g, c, branch, d, o, fuel) && r.Lowered?
    requires o.Falls? ==> Extends(env, o.env)
    requires |env| == |locals| && locals <= branch.s.locals && r.s.locals == locals
    requires !branch.terminated ==>
               && branch.s.at < |g| && g[branch.s.at] == Block(branch.s.blocks[branch.s.at].body, Some(Br(merge)))
               && !r.terminated && r.s.at == merge && r.s.blocks[merge].body == []
    ensures Outcomes(g, c, r, e, LeaveScope(env, o), fuel)
  {
    e := d;
    if o.Falls? {
      e := ExitGoes(g, d, merge);
      ReachesThrough(g, c, 0, d, 1, e);
      ReachesFewer(g, c, 1, 0, e);
      MatchedPrefix(env, o.env, locals, branch.s.locals, d);
    }
  }

  // ----- loops -----

  function LoopBody(s: State, s1: State, a: Operand): State {
    Position(End(s1, CondBr(a, |s.blocks| + 1, |s.blocks| + 2)), |s.blocks| + 1)
  }

  /** The states of a loop emitted from `s`, given the graph that completes it. */
  ghost predicate LoopCompleted(g: Graph, s: State, s1: State, a: Operand, body: Lowered)
    requires body.Lowered?
  {
    var n := |s.blocks|;
    var head, entry, f := OpenWhile(s), LoopBody(s, s1, a), CloseWhile(s, Lowered(KeepLocals(s, body.s), body.terminated));
    && Completes(g, End(s, Br(n))) && Completes(g, head) && Completes(g, s1)
    && Completes(g, End(s1, CondBr(a, n + 1, n + 2))) && Completes(g, entry) && Completes(g, body.s)
    && Open(head) && Open(s1) && Open(entry)
    && head.at == n && head.blocks[n].body == [] && head.locals == s.locals
    && entry.at == n + 1 && entry.blocks[n + 1].body == [] && entry.locals == s.locals
    && (!body.terminated ==> g[body.s.at] == Block(body.s.blocks[body.s.at].body, Some(Br(n))))
    && f.s.at == n + 2 && f.s.blocks[n + 2] == Block([], None) && f.s.locals == s.locals && !f.terminated
  }

  lemma LoopStates(g: Graph, s: State, s1: State, a: Operand, body: Lowered)
    requires Open(s) && Plain(OpenWhile(s), s1) && Open(s1)
    requires body.Lowered? && Flow(LoopBody(s, s1, a), body.s, body.terminated)
    requires Completes(g, CloseWhile(s, Lowered(KeepLocals(s, body.s), body.terminated)).s)
    ensures LoopCompleted(g, s, s1, a, body)
  {
    hide Completes, CloseWhile, OpenWhile, LoopBody;
    var n := |s.blocks|;
    var head, entry := OpenWhile(s), LoopBody(s, s1, a);
    OpenWhileFrame(s);
    WhileBodyFrame(s, s1, a);
    LoopBlocks(s, s1, a, body);
    LoopCloses(g, s, s1, a, body);
    CompletesEarlier(g, entry, body.s, Exit(body.s, body.terminated));
    LoopEntry(g, s, s1, a);
    CompletesEarlier(g, head, s1, {s1.at});
    LoopHead(g, s);
  }

  lemma LoopBlocks(s: State, s1: State, a: Operand, body: Lowered)
    requires Open(s) && Plain(OpenWhile(s), s1) && Open(s1)
    requires body.Lowered? && Flow(LoopBody(s, s1, a), body.s, body.terminated)
    ensures var n, entry := |s.blocks|, LoopBody(s, s1, a);
            && Open(entry) && entry.at == n + 1 && entry.blocks[n + 1].body == [] && entry.locals == s.locals
            && body.s.at != n + 2 < |body.s.blocks| && body.s.blocks[n + 2] == Block([], None)
            && OpenWhile(s).blocks[n].body == []
  {
    hide CloseWhile;
    var n := |s.blocks|;
    OpenWhileFrame(s);
    assert OpenWhile(s).blocks[n] == OpenWhile(s).blocks[n + 1] == OpenWhile(s).blocks[n + 2] == Block([], None);
    assert s1.at != n + 1 && s1.at != n + 2;
  }

  lemma LoopCloses(g: Graph, s: State, s1: State, a: Operand, body: Lowered)
    requires body.Lowered? && Touches(LoopBody(s, s1, a), body.s, Exit(body.s, body.terminated))
    requires body.s.at != |s.blocks| + 2 < |body.s.blocks| && body.s.blocks[|s.blocks| + 2] == Block([], None)
    requires Completes(g, CloseWhile(s, Lowered(KeepLocals(s, body.s), body.terminated)).s)
    ensures Completes(g, body.s)
    ensures !body.terminated ==> g[body.s.at] == Block(body.s.blocks[body.s.at].body, Some(Br(|s.blocks|)))
    ensures var f := CloseWhile(s, Lowered(KeepLocals(s, body.s), body.terminated));
            && f.s.at == |s.blocks| + 2 && f.s.blocks[|s.blocks| + 2] == Block([], None) && f.s.locals == s.locals
            && !f.terminated
  {
    hide LoopBody;
    if !body.terminated {
      assert body.s.blocks[body.s.at].end.None?;
      CompletesBlocks(g, CloseWhile(s, Lowered(KeepLocals(s, body.s), body.terminated)).s, End(body.s, Br(|s.blocks|)));
      EndEarlier(g, body.s, Br(|s.blocks|));
      assert g[body.s.at] == End(body.s, Br(|s.blocks|)).blocks[body.s.at];
    }
  }

  lemma LoopEntry(g: Graph, s: State, s1: State, a: Operand)
    requires Open(s1) && Completes(g, LoopBody(s, s1, a))
    ensures Completes(g, End(s1, CondBr(a, |s.blocks| + 1, |s.blocks| + 2))) && Completes(g, s1)
  {
    var ended := End(s1, CondBr(a, |s.blocks| + 1, |s.blocks| + 2));
    CompletesBlocks(g, LoopBody(s, s1, a), ended);
    EndEarlier(g, s1, CondBr(a, |s.blocks| + 1, |s.blocks| + 2));
  }

  lemma LoopHead(g: Graph, s: State)
    requires Open(s) && Completes(g, OpenWhile(s))
    ensures Completes(g, End(s, Br(|s.blocks|)))
  {
    assert OpenWhile(s).blocks[s.at] == End(s, Br(|s.blocks|)).blocks[s.at];
    assert forall b :: 0 <= b < |s.blocks| ==> OpenWhile(s).blocks[b] == End(s, Br(|s.blocks|)).blocks[b];
  }

  // ----- selecting a case -----

  /** The first case from `i` on whose pattern matches. */
  function FirstMatch(cases: seq<Case>, i: nat, v: Value): (r: Option<nat>)
    ensures r.Some? ==> i <= r.value < |cases| && Matches(cases[r.value].pattern, v)
    ensures r.Some? ==> forall j :: i <= j < r.value ==> !Matches(cases[j].pattern, v)
    ensures r.None? ==> forall j :: i <= j < |cases| ==> !Matches(cases[j].pattern, v)
    decreases |cases| - i
  {
    if i >= |cases| then None
    else if Matches(cases[i].pattern, v) then Some(i)
    else FirstMatch(cases, i + 1, v)
  }

  /** What selecting an arm does: enter the arm of the first matching case, or reach the unreachable end. */
  ghost predicate Selects(g: Graph, s: State, c: Config, d: Config, base: nat, arm: Option<nat>) {
    match arm
    case Some(j) => Reaches(g, c, 0, d) && Backed(g, d) && Kept(s, c, d) && d.block == base + j && d.pc == 0
    case None => Stops(g, c, Undefined)
  }

  lemma SelectsAfter(g: Graph, s: State, c: Config, t: State, d: Config, e: Config, base: nat, arm: Option<nat>)
    requires Goes(g, s, c, t, d) && Selects(g, t, d, e, base, arm)
    ensures Selects(g, s, c, e, base, arm)
  {
    match arm
    case Some(_) => ReachesThrough(g, c, 0, d, 0, e);
    case None => StopsThrough(g, c, 0, d, Undefined);
  }

  /** One test of the chain: to the arm if it holds, to the next test otherwise. */
  lemma DispatchedGoes(g: Graph, s: State, c: Config, a: Operand, arm: nat, b: bool) returns (d: Config)
    requires Ready(g, s, c) && Holds(a, s, c, Bool(b)) && Completes(g, Dispatched(s, a, arm))
    ensures Reaches(g, c, 0, d) && Backed(g, d) && Kept(s, c, d) && d == c.(block := if b then arm else |s.blocks|, pc := 0)
    ensures !b ==> Goes(g, s, c, Dispatched(s, a, arm), d)
  {
    var waiting := NewBlock(s);
    CompletesBlocks(g, Dispatched(s, a, arm), End(waiting, CondBr(a, arm, |s.blocks|)));
    d := EndGoes(g, waiting, c, CondBr(a, arm, |s.blocks|), if b then arm else |s.blocks|);
    ReachesFewer(g, c, 1, 0, d);
  }

  lemma EndsInBranch(g: Graph, s: State, c: Config, arm: nat) returns (d: Config)
    requires Ready(g, s, c) && Completes(g, End(s, Br(arm)))
    ensures Reaches(g, c, 0, d) && Backed(g, d) && Kept(s, c, d) && d.block == arm && d.pc == 0
  {
    d := EndGoes(g, s, c, Br(arm), arm);
    ReachesFewer(g, c, 1, 0, d);
  }

  /** How each case is tested is sound: by tag alone, not at all, or by the whole pattern. */
  lemma DispatchSound(t: Type, p: Pattern, v: Value)
    requires HasType(v, t) && Analyze(t, p).Some?
    ensures match DispatchOf(Analyze(t, p).value)
            case Always => Matches(p, v)
            case ByTag(k) => t.EnumType? && v.Tagged? && (Matches(p, v) <==> v.tag == k)
            case ByTest => true
  {
    hide AnalyzeNode, HasType, Matches;
    AnalysisSound(t, p, [], v);
  }

  /** The loaded tag, for matches on tagged values. */
  ghost predicate TagHeld(tag: Option<Operand>, t: Type, s: State, c: Config, v: Value) {
    tag.Some? ==> t.EnumType? && v.Tagged? && Holds(tag.value, s, c, Bits(64, v.tag))
  }

  lemma TagHeldThrough(tag: Option<Operand>, t: Type, v: Value, g: Graph, s: State, c: Config, u: State, d: Config)
    requires TagHeld(tag, t, s, c, v) && Goes(g, s, c, u, d)
    ensures TagHeld(tag, t, u, d, v)
  {
  }

  /**
   The emitted chain of tests is first-match: control enters exactly the arm of the first case whose pattern
   matches; the final unreachable block is entered exactly when no case matches.
   */
  lemma {:induction false} DispatchGoes(
    g: Graph, s: State, c: Config, t: Type, cases: seq<Case>, i: nat, base: nat, storage: nat, tag: Option<Operand>,
    v: Value)
    returns (d: Config)
    requires Ready(g, s, c) && 0 < base && base + |cases| <= |s.blocks|
    requires Stored(Place(storage, []), s, c, v) && HasType(v, t) && TagHeld(tag, t, s, c, v)
    requires EmitDispatch(s, t, cases, i, base, storage, tag).Some?
    requires Completes(g, EmitDispatch(s, t, cases, i, base, storage, tag).value)
    ensures Selects(g, s, c, d, base, FirstMatch(cases, i, v))
    decreases |cases| - i, 1
  {
    hide Completes, Goes, Stored, AtEnd, Backed, Stops, Matches, Dispatched, EmitCondition, Open, Plain, Kept;
    d := c;
    if i >= |cases| {
      ReadyParts(g, s, c);
      EndStops(g, s, c, Unreachable, Undefined);
    } else {
      var p := cases[i].pattern;
      DispatchSound(t, p, v);
      GoesNowhere(g, s, c);
      match DispatchOf(Analyze(t, p).value)
      case Always => d := EndsInBranch(g, s, c, base + i);
      case ByTag(k) =>
        var i1 := ICmp(s.registers, EQ, tag.value, Constant(Bits(64, k)));
        DispatchStates(g, s, Lowering.Define(s, i1), Register(s.registers), t, cases, i, base, storage, tag) by {
          DefineFrame(s, i1);
        }
        var d1 := CompareNext(g, s, c, s, c, EQ, tag.value, Constant(Bits(64, k)), Bits(64, v.tag), Bits(64, k), Bool(v.tag == k));
        d := DispatchContinues(g, s, c, Lowering.Define(s, i1), d1, Register(s.registers), t, cases, i, base, storage, tag, v);
      case ByTest =>
        EmitConditionFrame(s, p, Place(storage, []));
        var r := EmitCondition(s, p, Place(storage, []));
        DispatchStates(g, s, r.s, r.a, t, cases, i, base, storage, tag);
        var d1 := ConditionGoes(g, s, c, p, Place(storage, []), t, [], v);
        d := DispatchContinues(g, s, c, r.s, d1, r.a, t, cases, i, base, storage, tag, v);
    }
  }

  lemma ReadyParts(g: Graph, s: State, c: Config)
    requires Ready(g, s, c)
    ensures Open(s) && AtEnd(s, c) && Backed(g, c) && Completes(g, s)
  {
  }

  lemma DispatchStates(
    g: Graph, s: State, s1: State, a: Operand, t: Type, cases: seq<Case>, i: nat, base: nat, storage: nat,
    tag: Option<Operand>)
    requires i < |cases| && Plain(s, s1) && Open(s1) && 0 < base && base + |cases| <= |s.blocks|
    requires EmitDispatch(Dispatched(s1, a, base + i), t, cases, i + 1, base, storage, tag).Some?
    requires Completes(g, EmitDispatch(Dispatched(s1, a, base + i), t, cases, i + 1, base, storage, tag).value)
    ensures var s2 := Dispatched(s1, a, base + i);
            && Completes(g, s1) && Completes(g, s2) && Open(s1) && Open(s2) && |s.blocks| <= |s2.blocks|
  {
    hide Completes, Dispatched, Open, EmitDispatch;
    var s2 := Dispatched(s1, a, base + i);
    DispatchedFrame(s1, a, base + i);
    EmitDispatchFrame(s2, t, cases, i + 1, base, storage, tag);
    CompletesEarlier(g, s2, EmitDispatch(s2, t, cases, i + 1, base, storage, tag).value, {});
    PlainEarlier(g, s1, s2);
  }

  lemma {:induction false} DispatchContinues(
    g: Graph, s: State, c: Config, s1: State, d1: Config, a: Operand, t: Type, cases: seq<Case>, i: nat, base: nat,
    storage: nat, tag: Option<Operand>, v: Value)
    returns (d: Config)
    requires i < |cases| && Goes(g, s, c, s1, d1) && Holds(a, s1, d1, Bool(Matches(cases[i].pattern, v)))
    requires 0 < base && base + |cases| <= |s.blocks|
    requires Stored(Place(storage, []), s, c, v) && HasType(v, t) && TagHeld(tag, t, s, c, v)
    requires var s2 := Dispatched(s1, a, base + i);
             && Completes(g, s1) && Completes(g, s2) && Open(s1) && Open(s2) && |s.blocks| <= |s2.blocks|
             && EmitDispatch(s2, t, cases, i + 1, base, storage, tag).Some?
             && Completes(g, EmitDispatch(s2, t, cases, i + 1, base, storage, tag).value)
    ensures Selects(g, s, c, d, base, FirstMatch(cases, i, v))
    decreases |cases| - i, 0
  {
    hide Completes, Goes, Stored, AtEnd, Backed, Stops, Matches, Dispatched, EmitDispatch, Open, Kept, TagHeld, HasType;
    var s2 := Dispatched(s1, a, base + i);
    ReadyThere(g, s, c, s1, d1);
    var b := Matches(cases[i].pattern, v);
    var d2 := DispatchedGoes(g, s1, d1, a, base + i, b);
    if b {
      SelectsAfter(g, s, c, s1, d1, d2, base, Some(i));
      d := d2;
    } else {
      GoesThrough(g, s, c, s1, d1, s2, d2);
      ReadyThere(g, s, c, s2, d2);
      StoredThrough(Place(storage, []), v, g, s, c, s2, d2);
      TagHeldThrough(tag, t, v, g, s, c, s2, d2);
      d := DispatchGoes(g, s2, d2, t, cases, i + 1, base, storage, tag, v);
      SelectsAfter(g, s, c, s2, d2, d, base, FirstMatch(cases, i + 1, v));
    }
  }

  // ----- matches -----

  lemma {:induction false} NewBlocksAre(s: State, n: nat)
    ensures var u := NewBlocks(s, n);
            && u.at == s.at && u.registers == s.registers && u.locals == s.locals && |u.blocks| == |s.blocks| + n
            && (forall b :: 0 <= b < |s.blocks| ==> u.blocks[b] == s.blocks[b])
            && (forall b :: |s.blocks| <= b < |u.blocks| ==> u.blocks[b] == Block([], None))
    decreases n
  {
    if n > 0 {
      NewBlocksAre(NewBlock(s), n - 1);
    }
  }

  /** The scrutinee is stored once, and its tag loaded, before any case is tested. */
  lemma OpenMatchGoes(g: Graph, s: State, c: Config, t: Type, a: Operand, v: Value, arms: nat) returns (d: Config)
    requires Ready(g, s, c) && Holds(a, s, c, v) && HasType(v, t) && Completes(g, OpenMatch(s, t, a, arms))
    ensures var u := OpenMatch(s, t, a, arms);
            Goes(g, s, c, u, d) && Stored(Place(Cells(s), []), u, d, v) && TagHeld(MatchTag(s, t), t, u, d, v)
  {
    var u := OpenMatch(s, t, a, arms);
    var stored := Put(Allocate(s), Store(Cells(s), a));
    var i := LoadTag(s.registers, Place(Cells(s), []));
    var tagged := if t.EnumType? then Lowering.Define(stored, i) else stored;
    NewBlocksAre(tagged, arms);
    assert Completes(g, tagged) by {
      assert forall b :: 0 <= b < |tagged.blocks| ==> u.blocks[b] == tagged.blocks[b];
    }
    if t.EnumType? {
      assert Completes(g, stored) by {
        assert stored.blocks[s.at].body <= tagged.blocks[s.at].body;
      }
      var d1 := FreshStoreGoes(g, s, c, Store(Cells(s), a), v);
      d := DefineGoes(g, stored, d1, i, Bits(64, v.tag));
      ReachesThrough(g, c, 0, d1, 0, d);
    } else {
      d := FreshStoreGoes(g, s, c, Store(Cells(s), a), v);
    }
  }

  /** Arm blocks that have not been emitted yet are empty. */
  predicate Waiting(s: State, lo: nat, n: nat) {
    0 < lo && lo + n <= |s.blocks| && forall b :: lo <= b < lo + n ==> s.blocks[b] == Block([], None)
  }

  lemma WaitingAfter(s: State, t: State, open: set<nat>, lo: nat, n: nat)
    requires Touches(s, t, open) && Waiting(s, lo, n) && !(lo <= s.at < lo + n)
    ensures Waiting(t, lo, n) && !(lo <= t.at < lo + n)
  {
  }

  /** The first arm is emitted into its own empty block; the others keep waiting and finished blocks stay. */
  lemma ArmStates(t: State, cases: seq<Case>, i: nat, base: nat, storage: nat, returnsValue: bool, pops: bool)
    requires i < |cases| && Waiting(t, base + i, |cases| - i)
    requires EmitArm(Position(t, base + i), cases[i], storage, returnsValue, pops).Lowered?
    ensures var t0 := Position(t, base + i);
            var a := EmitArm(t0, cases[i], storage, returnsValue, pops);
            && t0.at == base + i && Open(t0) && t0.blocks[base + i].body == []
            && t0.blocks == t.blocks && t0.locals == t.locals
            && t0.registers == t.registers
            && Touches(t0, a.s, Exit(a.s, a.terminated)) && a.s.locals == t.locals
            && Waiting(a.s, base + i + 1, |cases| - i - 1) && !(base + i + 1 <= a.s.at < base + |cases|)
            && (forall b :: 0 < b < |t.blocks| && b != base + i ==> a.s.blocks[b] == t.blocks[b])
            && |t.blocks| <= |a.s.blocks| && 0 < a.s.at
            && (!a.terminated ==> a.s.blocks[a.s.at].end.None?)
  {
    hide EmitArm;
    var t0 := Position(t, base + i);
    EmitArmFrame(t0, cases[i], storage, returnsValue, pops);
    var a := EmitArm(t0, cases[i], storage, returnsValue, pops);
    WaitingAfter(t0, a.s, Exit(a.s, a.terminated), base + i + 1, |cases| - i - 1);
  }

  /** Emitting the remaining arms leaves finished blocks alone, and their graph completes what came before. */
  lemma {:induction false} ArmsKeep(
    g: Graph, t: State, cases: seq<Case>, i: nat, base: nat, storage: nat, returnsValue: bool)
    requires i <= |cases| && Waiting(t, base + i, |cases| - i)
    requires EmitArms(t, cases, i, base, storage, returnsValue, true).Arms?
    requires Completes(g, EmitArms(t, cases, i, base, storage, returnsValue, true).s)
    ensures var r := EmitArms(t, cases, i, base, storage, returnsValue, true);
            && Completes(g, t) && |r.exits| == |cases| - i && r.s.locals == t.locals && |t.blocks| <= |r.s.blocks|
            && (forall b :: 0 < b < |t.blocks| && !(base + i <= b < base + |cases|) ==> r.s.blocks[b] == t.blocks[b])
            && (forall j :: 0 <= j < |r.exits| && r.exits[j].Some? ==>
                  && 0 < r.exits[j].value < |r.s.blocks|
                  && (r.exits[j].value >= |t.blocks| || base + i <= r.exits[j].value < base + |cases|)
                  && r.s.blocks[r.exits[j].value].end.None?)
    decreases |cases| - i
  {
    hide EmitArm, Touches, Waiting, Completes;
    if i < |cases| {
      var t0 := Position(t, base + i);
      var a := EmitArm(t0, cases[i], storage, returnsValue, true);
      ArmStates(t, cases, i, base, storage, returnsValue, true);
      ArmsKeep(g, a.s, cases, i + 1, base, storage, returnsValue);
      CompletesEarlier(g, t0, a.s, Exit(a.s, a.terminated));
      CompletesBlocks(g, t0, t);
      ArmExit(t, t0, a.s, Exit(a.s, a.terminated), base + i);
    }
  }

  lemma ArmExit(t: State, t0: State, u: State, open: set<nat>, b: nat)
    requires Touches(t0, u, open) && t0.blocks == t.blocks && t0.at == b
    ensures u.at == b || u.at >= |t.blocks|
  {
  }

  /** What running one of several arms does: its outcome, with a fall-through ending at the arm's exit. */
  ghost predicate ArmOutcomes(
    g: Graph, c: Config, s: State, exit: Option<nat>, d: Config, o: Outcome, fuel: nat)
  {
    match o
    case Falls(env) =>
      exit.Some? && exit.value < |s.blocks| && Reaches(g, c, 0, d) && Backed(g, d) && Matched(env, s.locals, d) &&
      d.block == exit.value && d.pc == |s.blocks[exit.value].body|
    case Returned(v) => Stops(g, c, Finished(v))
    case Trapped => Stops(g, c, TrapStop)
    case Timeout => Reaches(g, c, fuel, d)
    case Undecided => true
    case Stuck => true
  }

  lemma ArmJoins(
    g: Graph, c: Config, s: State, exits: seq<Option<nat>>, j: nat, d: Config, o: Outcome, fuel: nat)
    returns (e: Config)
    requires j < |exits| && ArmOutcomes(g, c, s, exits[j], d, o, fuel)
    requires DistinctExits(exits) && ExitsOpen(s, exits, 0) && Completes(g, JoinArms(s, exits).s)
    ensures Outcomes(g, c, JoinArms(s, exits), e, o, fuel)
  {
    hide JoinArms, Completes;
    JoinArmsCompletes(g, s, exits);
    JoinArmsLocals(s, exits);
    e := d;
    if o.Falls? {
      CompletesLonger(g, s);
      e := ExitGoes(g, d, |s.blocks|);
      ReachesThrough(g, c, 0, d, 1, e);
      ReachesFewer(g, c, 1, 0, e);
    }
  }

  lemma CompletesLonger(g: Graph, s: State)
    requires Completes(g, s)
    ensures |s.blocks| <= |g|
  {
  }

  /** Case selection in the source agrees with the first match. */
  lemma {:induction false} ExecCasesIs(t: Type, cases: seq<Case>, i: nat, v: Value, env: Env, fuel: nat)
    requires HasType(v, t)
    ensures match FirstMatch(cases, i, v)
            case None => ExecCases(t, cases, i, v, env, fuel) == Stuck
            case Some(j) =>
              ExecCases(t, cases, i, v, env, fuel) == Stuck
              || (Analyze(t, cases[j].pattern).Some?
                  && ExecCases(t, cases, i, v, env, fuel) == ExecCase(t, cases[j], v, env, fuel))
    decreases |cases| - i
  {
    hide HasType, Matches, AnalyzeNode, ExecCase;
    if i < |cases| && Analyze(t, cases[i].pattern).Some? && !Matches(cases[i].pattern, v) {
      ExecCasesIs(t, cases, i + 1, v, env, fuel);
    }
  }

  // ----- bodies -----

  /** A state and a run standing at its insertion point with the source slots in their cells. */
  ghost predicate Standing(g: Graph, s: State, c: Config, env: Env) {
    Ready(g, s, c) && LocalsOk(s) && Matched(env, s.locals, c)
  }

  /**
   Running the code of one statement has the source outcome: it falls through at the new insertion point with
   the same store, or returns the same value, or traps; and while the source is still looping after `fuel`
   iterations, the machine has been running for at least that many steps.
   */
  lemma {:induction false} StatementGoes(
    g: Graph, s: State, c: Config, stmt: Stmt, env: Env, returnsValue: bool, fuel: nat) returns (d: Config)
    requires Standing(g, s, c, env) && EmitStatement(s, stmt, returnsValue, true).Lowered?
    requires Completes(g, EmitStatement(s, stmt, returnsValue, true).s)
    ensures Outcomes(g, c, EmitStatement(s, stmt, returnsValue, true), d, Exec(stmt, env, fuel), fuel)
    decreases fuel, stmt, 2
  {
    hide Completes, Goes, Matched, LocalsOk, AtEnd, Backed, Stops, EmitExpr, EmitFrom, Eval, ExecFrom, ExecAssign, Standing, Outcomes;
    StandingParts(g, s, c, env);
    match stmt
    case Declare(x, t, _) => d := DeclareGoes(g, s, c, stmt, env, returnsValue, fuel);
    case Assign(x, e) => d := AssignGoes(g, s, c, x, e, env, returnsValue, fuel);
    case Return(None) => d := ReturnNothingGoes(g, s, c, env, fuel);
    case Return(Some(e)) => d := ReturnGoes(g, s, c, e, env, fuel);
    case If(cond, thenBlock, elseBlock) => d := IfGoes(g, s, c, cond, thenBlock, elseBlock, env, returnsValue, fuel, stmt);
    case Unsafe(body) => d := UnsafeGoes(g, s, c, body, env, returnsValue, fuel, stmt);
    case While(cond, body) => d := WhileGoes(g, s, c, cond, body, env, returnsValue, fuel, stmt);
    case Match(t, scrutinee, cases) => d := MatchGoes(g, s, c, t, scrutinee, cases, env, returnsValue, fuel, stmt);
  }

  lemma StandingParts(g: Graph, s: State, c: Config, env: Env)
    requires Standing(g, s, c, env)
    ensures Ready(g, s, c) && LocalsOk(s) && Matched(env, s.locals, c) && Open(s) && |env| == |s.locals|
  {
  }

  lemma DeclareGoes(g: Graph, s: State, c: Config, stmt: Stmt, env: Env, returnsValue: bool, fuel: nat)
    returns (d: Config)
    requires Standing(g, s, c, env) && stmt.Declare?
    requires Completes(g, EmitStatement(s, stmt, returnsValue, true).s)
    ensures Outcomes(g, c, EmitStatement(s, stmt, returnsValue, true), d, Exec(stmt, env, fuel), fuel)
  {
    ReachesHere(g, c);
    d := c;
  }

  lemma ReturnNothingGoes(g: Graph, s: State, c: Config, env: Env, fuel: nat) returns (d: Config)
    requires Standing(g, s, c, env)
    requires Completes(g, EmitStatement(s, Return(None), false, true).s)
    ensures Outcomes(g, c, EmitStatement(s, Return(None), false, true), d, Exec(Return(None), env, fuel), fuel)
  {
    EndStops(g, s, c, RetVoid, Finished(None));
    d := c;
  }

  lemma {:induction false} FromGoes(
    g: Graph, s: State, c: Config, block: seq<Stmt>, i: nat, env: Env, returnsValue: bool, fuel: nat)
    returns (d: Config)
    requires Standing(g, s, c, env) && EmitFrom(s, block, i, returnsValue, true).Lowered?
    requires Completes(g, EmitFrom(s, block, i, returnsValue, true).s)
    ensures Outcomes(g, c, EmitFrom(s, block, i, returnsValue, true), d, ExecFrom(block, i, env, fuel), fuel)
    ensures s.locals <= EmitFrom(s, block, i, returnsValue, true).s.locals
    decreases fuel, block, |block| - i
  {
    hide Completes, Goes, Matched, LocalsOk, AtEnd, Backed, Stops, EmitStatement, Exec, Standing, Touches, Open;
    StandingParts(g, s, c, env);
    EmitFromFrame(s, block, i, returnsValue, true);
    if i >= |block| {
      d := StandsStill(g, s, c, env, fuel);
    } else {
      var r := EmitStatement(s, block[i], returnsValue, true);
      EmitStatementFrame(s, block[i], returnsValue, true);
      if r.terminated {
        d := StatementGoes(g, s, c, block[i], env, returnsValue, fuel);
      } else {
        var n := EmitFrom(r.s, block, i + 1, returnsValue, true);
        FlowReports(s, r.s, false);
        EmitFromFrame(r.s, block, i + 1, returnsValue, true);
        CompletesEarlier(g, r.s, n.s, Exit(n.s, n.terminated));
        d := StatementGoes(g, s, c, block[i], env, returnsValue, fuel);
        var o := Exec(block[i], env, fuel);
        if o.Falls? {
          StatementLocals(s, block[i], returnsValue);
          StandsThere(g, r.s, d, o.env);
          var e := FromGoes(g, r.s, d, block, i + 1, o.env, returnsValue, fuel);
          OutcomesAfter(g, c, 0, d, n, e, ExecFrom(block, i + 1, o.env, fuel), fuel);
          d := e;
        }
      }
    }
  }

  lemma StandsStill(g: Graph, s: State, c: Config, env: Env, fuel: nat) returns (d: Config)
    requires Standing(g, s, c, env)
    ensures Outcomes(g, c, Lowered(s, false), d, Falls(env), fuel)
  {
    ReachesHere(g, c);
    d := c;
  }

  lemma StandsThere(g: Graph, s: State, c: Config, env: Env)
    requires Open(s) && Completes(g, s) && AtEnd(s, c) && Backed(g, c) && LocalsOk(s) && Matched(env, s.locals, c)
    ensures Standing(g, s, c, env)
  {
  }

  /** Arriving, after an expression, with every slot still in its cell. */
  lemma StandsAfter(g: Graph, s: State, c: Config, t: State, d: Config, env: Env)
    requires Standing(g, s, c, env) && Goes(g, s, c, t, d) && t.locals == s.locals && Open(t) && Completes(g, t)
    ensures Standing(g, t, d, env)
  {
    MatchedAfter(env, g, s, c, t, d);
  }

  /** Entering an empty block of the same function. */
  lemma StandsIn(g: Graph, s: State, c: Config, t: State, d: Config, env: Env)
    requires Standing(g, s, c, env) && t.locals == s.locals && Cells(s) <= Cells(t) && Open(t) && Completes(g, t)
    requires d.block == t.at && d.pc == 0 && t.blocks[t.at].body == [] && Backed(g, d)
    requires Kept(s, c, d)
    ensures Standing(g, t, d, env)
  {
    MatchedLater(env, s, c, d);
  }

  lemma {:induction false} UnsafeGoes(
    g: Graph, s: State, c: Config, body: seq<Stmt>, env: Env, returnsValue: bool, fuel: nat, stmt: Stmt)
    returns (d: Config)
    requires stmt == Unsafe(body) && Standing(g, s, c, env) && EmitStatement(s, stmt, returnsValue, true).Lowered?
    requires Completes(g, EmitStatement(s, stmt, returnsValue, true).s)
    ensures Outcomes(g, c, EmitStatement(s, stmt, returnsValue, true), d, Exec(stmt, env, fuel), fuel)
    decreases fuel, stmt, 1
  {
    hide Completes, Matched, LocalsOk, Backed, Stops, EmitFrom, ExecFrom, Standing, Touches;
    StandingParts(g, s, c, env);
    var b := EmitFrom(s, body, 0, returnsValue, true);
    var r := EmitStatement(s, stmt, returnsValue, true);
    CompletesBlocks(g, r.s, b.s);
    d := FromGoes(g, s, c, body, 0, env, returnsValue, fuel);
    var o := ExecFrom(body, 0, env, fuel);
    if o.Falls? {
      MatchedPrefix(env, o.env, s.locals, b.s.locals, d);
    }
  }

  lemma {:induction false} IfGoes(
    g: Graph, s: State, c: Config, cond: Expr, thenBlock: seq<Stmt>, elseBlock: seq<Stmt>, env: Env,
    returnsValue: bool, fuel: nat, stmt: Stmt)
    returns (d: Config)
    requires stmt == If(cond, thenBlock, elseBlock) && Standing(g, s, c, env)
    requires EmitStatement(s, stmt, returnsValue, true).Lowered?
    requires Completes(g, EmitStatement(s, stmt, returnsValue, true).s)
    ensures Outcomes(g, c, EmitStatement(s, stmt, returnsValue, true), d, Exec(stmt, env, fuel), fuel)
    decreases fuel, stmt, 1
  {
    hide Completes, Matched, LocalsOk, Backed, Stops, EmitFrom, ExecFrom, Standing, Touches, EmitExpr, Eval, OpenIf, JoinIf;
    hide Goes, AtEnd, Outcomes, Exit, IfCompleted;
    StandingParts(g, s, c, env);
    var r := EmitExpr(s, cond);
    var u := OpenIf(r.s, r.a);
    var y := EmitFrom(u, thenBlock, 0, returnsValue, true);
    var s3i := Position(KeepLocals(r.s, y.s), |r.s.blocks| + 1);
    var n := EmitFrom(s3i, elseBlock, 0, returnsValue, true);
    var j := EmitStatement(s, stmt, returnsValue, true);
    EmitExprFrame(s, cond);
    OpenIfFrame(r.s, r.a);
    EmitFromFrame(u, thenBlock, 0, returnsValue, true);
    IfElseAt(r.s, r.a, y.s, y.terminated, s3i);
    EmitFromFrame(s3i, elseBlock, 0, returnsValue, true);
    IfStates(g, r.s, r.a, y, s3i, n);
    IfParts(g, r.s, r.a, y, s3i, n);
    d := ExprGoes(g, s, c, cond, env);
    if Eval(cond, env).Yields? && IsBool(Eval(cond, env).value) {
      var b := Eval(cond, env).value == Bool(true);
      StandsAfter(g, s, c, r.s, d, env);
      StandingParts(g, r.s, d, env);
      var d1 := IfEnters(g, r.s, d, r.a, b);
      GoesAt(g, s, c, r.s, d);
      ReachesThrough(g, c, 0, d, 0, d1);
      var e;
      if b {
        StandsIn(g, r.s, d, u, d1, env);
        e := FromGoes(g, u, d1, thenBlock, 0, env, returnsValue, fuel);
        e := BranchLeaves(g, d1, y, e, ExecFrom(thenBlock, 0, env, fuel), env, s.locals, j, fuel, |n.s.blocks|);
      } else {
        StandsIn(g, r.s, d, s3i, d1, env);
        e := FromGoes(g, s3i, d1, elseBlock, 0, env, returnsValue, fuel);
        e := BranchLeaves(g, d1, n, e, ExecFrom(elseBlock, 0, env, fuel), env, s.locals, j, fuel, |n.s.blocks|);
      }
      OutcomesAfter(g, c, 0, d1, j, e, Exec(stmt, env, fuel), fuel);
      d := e;
    } else {
      AbortOutcome(g, s, c, r, d, Eval(cond, env), j, fuel);
    }
  }

  lemma AbortOutcome(g: Graph, s: State, c: Config, r: Emission, d: Config, x: Evaluated, j: Lowered, fuel: nat)
    requires r.Emitted? && j.Lowered? && Simulates(g, s, c, r, d, x)
    ensures x.Aborts? ==> Outcomes(g, c, j, d, Trapped, fuel)
    ensures Outcomes(g, c, j, d, Stuck, fuel) && Outcomes(g, c, j, d, Undecided, fuel)
  {
  }

  lemma IfParts(g: Graph, s1: State, a: Operand, y: Lowered, s3i: State, n: Lowered)
    requires y.Lowered? && n.Lowered? && IfCompleted(g, s1, a, y, s3i, n)
    requires Flow(OpenIf(s1, a), y.s, y.terminated) && Flow(s3i, n.s, n.terminated) && Open(s1)
    requires s3i == Position(KeepLocals(s1, y.s), |s1.blocks| + 1)
    ensures var u, merge := OpenIf(s1, a), |n.s.blocks|;
            && Open(u) && Open(s3i) && Completes(g, s1) && Completes(g, u) && Completes(g, y.s) && Completes(g, s3i)
            && Completes(g, n.s) && s3i.at == |s1.blocks| + 1 && s3i.blocks[s3i.at].body == [] && s3i.locals == s1.locals
            && u.at == |s1.blocks| && u.blocks[u.at].body == [] && u.locals == s1.locals
            && Cells(s1) <= Cells(u) && Cells(s1) <= Cells(s3i)
            && (!y.terminated ==> y.s.at < |g| && g[y.s.at] == Block(y.s.blocks[y.s.at].body, Some(Br(merge))))
            && (!n.terminated ==> n.s.at < |g| && g[n.s.at] == Block(n.s.blocks[n.s.at].body, Some(Br(merge))))
  {
    hide JoinIf;
    OpenIfFrame(s1, a);
    assert OpenIf(s1, a).blocks[|s1.blocks|] == Block([], None);
    CompletesLonger(g, y.s);
    CompletesLonger(g, n.s);
  }

  /** The parts of an emitted loop. */
  ghost predicate IsLoop(g: Graph, s: State, cond: Expr, body: seq<Stmt>, returnsValue: bool) {
    Open(s) && EmitExpr(OpenWhile(s), cond).Emitted? &&
    var r := EmitExpr(OpenWhile(s), cond);
    var b := EmitFrom(LoopBody(s, r.s, r.a), body, 0, returnsValue, true);
    b.Lowered? && LoopCompleted(g, s, r.s, r.a, b) && Plain(OpenWhile(s), r.s)
    && Flow(LoopBody(s, r.s, r.a), b.s, b.terminated)
    && Cells(s) <= Cells(OpenWhile(s)) && Cells(OpenWhile(s)) <= Cells(LoopBody(s, r.s, r.a))
    && r.s.registers <= LoopBody(s, r.s, r.a).registers
  }

  lemma LoopIsLoop(g: Graph, s: State, cond: Expr, body: seq<Stmt>, returnsValue: bool)
    requires Open(s) && EmitStatement(s, While(cond, body), returnsValue, true).Lowered?
    requires Completes(g, EmitStatement(s, While(cond, body), returnsValue, true).s)
    ensures IsLoop(g, s, cond, body, returnsValue)
  {
    hide EmitExpr, EmitFrom, Touches, Completes, LoopCompleted, CloseWhile;
    var r := EmitExpr(OpenWhile(s), cond);
    OpenWhileFrame(s);
    EmitExprFrame(OpenWhile(s), cond);
    WhileBodyFrame(s, r.s, r.a);
    var entry := LoopBody(s, r.s, r.a);
    EmitFromFrame(entry, body, 0, returnsValue, true);
    LoopStates(g, s, r.s, r.a, EmitFrom(entry, body, 0, returnsValue, true));
    PlainCells(OpenWhile(s), r.s);
    OpenWhileFlows(s);
  }

  lemma PlainCells(s: State, t: State)
    requires Plain(s, t)
    ensures Cells(s) <= Cells(t) && s.registers <= t.registers
  {
  }

  lemma OpenWhileFlows(s: State)
    requires Open(s)
    ensures Cells(s) <= Cells(OpenWhile(s)) && s.registers <= OpenWhile(s).registers
  {
  }

  lemma {:induction false} WhileGoes(
    g: Graph, s: State, c: Config, cond: Expr, body: seq<Stmt>, env: Env, returnsValue: bool, fuel: nat, stmt: Stmt)
    returns (d: Config)
    requires stmt == While(cond, body) && Standing(g, s, c, env)
    requires EmitStatement(s, stmt, returnsValue, true).Lowered?
    requires Completes(g, EmitStatement(s, stmt, returnsValue, true).s)
    ensures Outcomes(g, c, EmitStatement(s, stmt, returnsValue, true), d, Exec(stmt, env, fuel), fuel)
    decreases fuel, stmt, 1
  {
    hide Touches, EmitExpr, EmitFrom, Completes, Matched, Outcomes, CloseWhile, LocalsOk, Exec, Plain;
    LoopIsLoop(g, s, cond, body, returnsValue);
    var n := |s.blocks|;
    var d0 := EndGoes(g, s, c, Br(n), n);
    MatchedLater(env, s, c, d0);
    d := LoopGoes(g, s, d0, cond, body, env, returnsValue, fuel, stmt);
    OutcomesAfter(g, c, 1, d0, EmitStatement(s, stmt, returnsValue, true), d, Exec(stmt, env, fuel), fuel);
  }

  /** From the loop head, by induction on the iterations left. */
  lemma {:induction false} LoopGoes(
    g: Graph, s: State, c: Config, cond: Expr, body: seq<Stmt>, env: Env, returnsValue: bool, fuel: nat, stmt: Stmt)
    returns (d: Config)
    requires stmt == While(cond, body) && EmitStatement(s, stmt, returnsValue, true).Lowered?
    requires IsLoop(g, s, cond, body, returnsValue)
    requires AtEnd(OpenWhile(s), c) && Backed(g, c) && LocalsOk(s) && Matched(env, s.locals, c)
    ensures Outcomes(g, c, EmitStatement(s, stmt, returnsValue, true), d, Exec(stmt, env, fuel), fuel)
    decreases fuel, stmt, 0
  {
    hide Touches, EmitExpr, EmitFrom, Completes, Matched, LocalsOk, Plain, Eval, ExecFrom, OpenWhile, CloseWhile, Backed;
    hide LoopBody, Goes, AtEnd, Outcomes, Kept, Open, Stops, Flow, IsLoop;
    var j := EmitStatement(s, stmt, returnsValue, true);
    var head := OpenWhile(s);
    d := c;
    if fuel == 0 {
      TimeoutHere(g, c, j);
      return;
    }
    var r := EmitExpr(head, cond);
    var entry := LoopBody(s, r.s, r.a);
    var b := EmitFrom(entry, body, 0, returnsValue, true);
    LoopParts(g, s, cond, body, returnsValue);
    StandsThere(g, head, c, env) by { LocalsOkMore(s, head); }
    StandingParts(g, head, c, env);
    d := ExprGoes(g, head, c, cond, env);
    if Eval(cond, env).Yields? && IsBool(Eval(cond, env).value) {
      var v := Eval(cond, env).value == Bool(true);
      StandsAfter(g, head, c, r.s, d, env);
      var d1 := LoopBranches(g, s, head, c, r.s, d, r.a, v);
      if v {
        StandsIn(g, r.s, d, entry, d1, env);
        var e := FromGoes(g, entry, d1, body, 0, env, returnsValue, fuel - 1);
        var o := ExecFrom(body, 0, env, fuel - 1);
        d := LoopAgain(g, s, c, d1, b, e, o, env, j, fuel, stmt);
        if o.Falls? {
          var next := o.env[..|env|];
          var e2 := LoopGoes(g, s, d, cond, body, next, returnsValue, fuel - 1, stmt);
          OutcomesMore(g, c, d, j, e2, Exec(stmt, next, fuel - 1), fuel);
          d := e2;
        }
      } else {
        LoopDone(g, s, c, d1, r.s, d, env, j, fuel);
        d := d1;
      }
    } else {
      AbortOutcome(g, head, c, r, d, Eval(cond, env), j, fuel);
    }
  }

  lemma TimeoutHere(g: Graph, c: Config, j: Lowered)
    requires j.Lowered?
    ensures Outcomes(g, c, j, c, Timeout, 0)
  {
    ReachesHere(g, c);
  }

  lemma LocalsOkMore(s: State, t: State)
    requires LocalsOk(s) && t.locals == s.locals && Cells(s) <= Cells(t)
    ensures LocalsOk(t)
  {
  }

  lemma LoopParts(g: Graph, s: State, cond: Expr, body: seq<Stmt>, returnsValue: bool)
    requires IsLoop(g, s, cond, body, returnsValue)
    ensures var n, head := |s.blocks|, OpenWhile(s);
            var r := EmitExpr(head, cond);
            var entry := LoopBody(s, r.s, r.a);
            var b := EmitFrom(entry, body, 0, returnsValue, true);
            var j := EmitStatement(s, While(cond, body), returnsValue, true);
            && r.Emitted? && b.Lowered? && j == CloseWhile(s, Lowered(KeepLocals(s, b.s), b.terminated))
            && Open(head) && Completes(g, head) && Open(r.s) && Completes(g, r.s) && Open(entry) && Completes(g, entry)
            && Completes(g, b.s) && Completes(g, End(r.s, CondBr(r.a, n + 1, n + 2)))
            && head.locals == r.s.locals == entry.locals == s.locals
            && Cells(s) <= Cells(head) && Cells(r.s) <= Cells(entry) && head.at == n && head.blocks[n].body == []
            && entry.at == n + 1 && entry.blocks[n + 1].body == [] && b.s.at < |g|
            && (!b.terminated ==> g[b.s.at] == Block(b.s.blocks[b.s.at].body, Some(Br(n))))
            && j.s.at == n + 2 && j.s.blocks[n + 2] == Block([], None) && j.s.locals == s.locals && !j.terminated
            && s.locals <= b.s.locals
  {
    hide Touches, EmitExpr, EmitFrom, Completes, OpenWhile, CloseWhile;
    var r := EmitExpr(OpenWhile(s), cond);
    CompletesLonger(g, EmitFrom(LoopBody(s, r.s, r.a), body, 0, returnsValue, true).s);
    LoopBodyCells(s, r.s, r.a);
  }

  lemma LoopBodyCells(s: State, s1: State, a: Operand)
    ensures Cells(LoopBody(s, s1, a)) == Cells(s1) || s1.at == 0
  {
  }

  lemma LoopBranches(g: Graph, s: State, head: State, c: Config, s1: State, d: Config, a: Operand, v: bool)
    returns (d1: Config)
    requires Goes(g, head, c, s1, d) && Holds(a, s1, d, Bool(v)) && Open(s1)
    requires Completes(g, End(s1, CondBr(a, |s.blocks| + 1, |s.blocks| + 2)))
    ensures Reaches(g, c, 1, d1) && Backed(g, d1) && Kept(s1, d, d1)
    ensures d1 == d.(block := if v then |s.blocks| + 1 else |s.blocks| + 2, pc := 0)
  {
    var n := |s.blocks|;
    d1 := EndGoes(g, s1, d, CondBr(a, n + 1, n + 2), if v then n + 1 else n + 2);
    ReachesThrough(g, c, 0, d, 1, d1);
  }

  /** The body falls through to the loop head with the outer slots, or ends the loop with its own outcome. */
  lemma LoopAgain(
    g: Graph, s: State, c: Config, d1: Config, b: Lowered, e: Config, o: Outcome, env: Env, j: Lowered, fuel: nat,
    stmt: Stmt)
    returns (d: Config)
    requires fuel > 0 && Reaches(g, c, 1, d1) && b.Lowered? && j.Lowered? && Outcomes(g, d1, b, e, o, fuel - 1)
    requires o.Falls? ==> Extends(env, o.env)
    requires |env| == |s.locals| && s.locals <= b.s.locals && b.s.at < |g|
    requires !b.terminated ==> g[b.s.at] == Block(b.s.blocks[b.s.at].body, Some(Br(|s.blocks|)))
    requires var head := OpenWhile(s); head.at == |s.blocks| && head.blocks[|s.blocks|].body == []
    ensures o.Falls? ==>
              Reaches(g, c, 1, d) && AtEnd(OpenWhile(s), d) && Backed(g, d) && Matched(o.env[..|env|], s.locals, d)
    ensures !o.Falls? ==> Outcomes(g, c, j, d, o, fuel)
  {
    hide OpenWhile;
    d := e;
    if o.Falls? {
      ReachesThrough(g, c, 1, d1, 0, e);
      d := ExitGoes(g, e, |s.blocks|);
      ReachesThrough(g, c, 1, e, 1, d);
      ReachesFewer(g, c, 2, 1, d);
      MatchedPrefix(env, o.env, s.locals, b.s.locals, e);
    } else {
      OutcomesAfter(g, c, 1, d1, b, e, o, fuel - 1);
    }
  }

  /** One more iteration behind us is one more unit of the bound. */
  lemma OutcomesMore(g: Graph, c: Config, d: Config, j: Lowered, e: Config, o: Outcome, fuel: nat)
    requires fuel > 0 && j.Lowered? && Reaches(g, c, 1, d) && Outcomes(g, d, j, e, o, fuel - 1)
    ensures Outcomes(g, c, j, e, o, fuel)
  {
    OutcomesAfter(g, c, 1, d, j, e, o, fuel - 1);
  }

  lemma LoopDone(g: Graph, s: State, c: Config, d1: Config, s1: State, d: Config, env: Env, j: Lowered, fuel: nat)
    requires Reaches(g, c, 1, d1) && Backed(g, d1) && Kept(s1, d, d1) && d1.block == |s.blocks| + 2 && d1.pc == 0
    requires Standing(g, s1, d, env) && s1.locals == s.locals
    requires j.Lowered? && j.s.at == |s.blocks| + 2 && j.s.blocks[|s.blocks| + 2] == Block([], None)
    requires j.s.locals == s.locals && !j.terminated
    ensures Outcomes(g, c, j, d1, Falls(env), fuel)
  {
    ReachesFewer(g, c, 1, 0, d1);
    MatchedLater(env, s1, d, d1);
  }

  // ----- matches, continued -----

  lemma {:induction false} MatchGoes(
    g: Graph, s: State, c: Config, t: Type, scrutinee: Expr, cases: seq<Case>, env: Env, returnsValue: bool,
    fuel: nat, stmt: Stmt)
    returns (d: Config)
    requires stmt == Match(t, scrutinee, cases) && Standing(g, s, c, env)
    requires EmitStatement(s, stmt, returnsValue, true).Lowered?
    requires Completes(g, EmitStatement(s, stmt, returnsValue, true).s)
    ensures Outcomes(g, c, EmitStatement(s, stmt, returnsValue, true), d, Exec(stmt, env, fuel), fuel)
    decreases fuel, stmt, 1
  {
    hide Touches, EmitExpr, EmitDispatch, EmitArms, Completes, Matched, LocalsOk, Plain, Eval, ExecCases, Backed;
    hide Goes, AtEnd, Outcomes, Kept, Open, Stops, JoinArms, OpenMatch, HasType, Standing, ArmOutcomes, ExitsOpen;
    hide DistinctExits, Stored, TagHeld, Selects, Waiting;
    StandingParts(g, s, c, env);
    var r := EmitExpr(s, scrutinee);
    var u, base, storage := OpenMatch(r.s, t, r.a, |cases|), |r.s.blocks|, Cells(r.s);
    var s3 := EmitDispatch(u, t, cases, 0, base, storage, MatchTag(r.s, t)).value;
    var arms := EmitArms(s3, cases, 0, base, storage, returnsValue, true);
    var j := EmitStatement(s, stmt, returnsValue, true);
    EmitExprFrame(s, scrutinee);
    MatchStates(g, r.s, t, r.a, cases, returnsValue);
    PlainLocals(s, r.s);
    d := ExprGoes(g, s, c, scrutinee, env);
    if Eval(scrutinee, env).Yields? && HasType(Eval(scrutinee, env).value, t) {
      var v := Eval(scrutinee, env).value;
      StandsAfter(g, s, c, r.s, d, env);
      StandingParts(g, r.s, d, env);
      var d1 := OpenMatchGoes(g, r.s, d, t, r.a, v, |cases|);
      StandsAfter(g, r.s, d, u, d1, env);
      StandingParts(g, u, d1, env);
      var d2 := DispatchGoes(g, u, d1, t, cases, 0, base, storage, MatchTag(r.s, t), v);
      ExecCasesIs(t, cases, 0, v, env, fuel);
      var o := ExecCases(t, cases, 0, v, env, fuel);
      if o == Stuck {
        StuckOutcome(g, c, j, d, fuel);
      } else {
        var k := FirstMatch(cases, 0, v).value;
        ArmEntered(g, u, d1, d2, s3, base, storage, cases, k, v, env);
        var e := ArmsGo(g, s3, d2, cases, 0, k, base, storage, returnsValue, env, t, v, fuel);
        e := ArmJoins(g, d2, arms.s, arms.exits, k, e, o, fuel);
        GoesAt(g, s, c, r.s, d);
        GoesAt(g, r.s, d, u, d1);
        ReachesThrough(g, c, 0, d, 0, d1);
        SelectsReach(g, u, d1, d2, base, k);
        ReachesThrough(g, c, 0, d1, 0, d2);
        OutcomesAfter(g, c, 0, d2, j, e, o, fuel);
        d := e;
      }
    } else {
      AbortOutcome(g, s, c, r, d, Eval(scrutinee, env), j, fuel);
      if Eval(scrutinee, env).Yields? {
        StuckOutcome(g, c, j, d, fuel);
      }
    }
  }

  lemma StuckOutcome(g: Graph, c: Config, j: Lowered, d: Config, fuel: nat)
    requires j.Lowered?
    ensures Outcomes(g, c, j, d, Stuck, fuel) && Outcomes(g, c, j, d, Undecided, fuel)
  {
  }

  lemma SelectsReach(g: Graph, s: State, c: Config, d: Config, base: nat, k: nat)
    requires Selects(g, s, c, d, base, Some(k))
    ensures Reaches(g, c, 0, d) && Backed(g, d) && Kept(s, c, d) && d.block == base + k && d.pc == 0
  {
  }

  /** The states of a match, given the graph that completes its join. */
  lemma MatchStates(g: Graph, s: State, t: Type, a: Operand, cases: seq<Case>, returnsValue: bool)
    requires Open(s) && cases != []
    requires var d := EmitDispatch(OpenMatch(s, t, a, |cases|), t, cases, 0, |s.blocks|, Cells(s), MatchTag(s, t));
             d.Some? &&
             var r := EmitArms(d.value, cases, 0, |s.blocks|, Cells(s), returnsValue, true);
             r.Arms? && Completes(g, JoinArms(r.s, r.exits).s)
    ensures var u, base := OpenMatch(s, t, a, |cases|), |s.blocks|;
            var s3 := EmitDispatch(u, t, cases, 0, base, Cells(s), MatchTag(s, t)).value;
            var r := EmitArms(s3, cases, 0, base, Cells(s), returnsValue, true);
            && Open(u) && Completes(g, s) && Completes(g, u) && Completes(g, s3) && Completes(g, r.s)
            && u.locals == s.locals && s3.locals == s.locals && r.s.locals == s.locals
            && base + |cases| <= |u.blocks| && Waiting(s3, base, |cases|) && Cells(s) < Cells(u) <= Cells(s3)
            && u.registers <= s3.registers && |r.exits| == |cases|
            && DistinctExits(r.exits) && ExitsOpen(r.s, r.exits, 0)
  {
    hide EmitDispatch, EmitArms, JoinArms, OpenMatch, Completes, DistinctExits, Touches, Waiting, ExitsOpen;
    var n := |cases|;
    var u, base := OpenMatch(s, t, a, n), |s.blocks|;
    var s3 := EmitDispatch(u, t, cases, 0, base, Cells(s), MatchTag(s, t)).value;
    var r := EmitArms(s3, cases, 0, base, Cells(s), returnsValue, true);
    var p := {s.at} + Ids(base, n);
    OpenMatchFrame(s, t, a, n);
    OpenMember(s, u, p);
    EmitDispatchFrame(u, t, cases, 0, base, Cells(s), MatchTag(s, t));
    ArmsWait(s, t, a, n);
    WaitingAfter(u, s3, {}, base, n);
    TouchesCounts(u, s3, {});
    TouchesThrough(s, u, p, s3, {});
    assert p - {u.at} + {} == {} + Ids(base, n);
    EmitArmsFrame(s, s3, {}, cases, 0, base, Cells(s), returnsValue, true);
    assert {} + ExitSet(r.exits, 0) == ExitSet(r.exits, 0);
    ExitsAreOpen(s, r.s, r.exits);
    JoinArmsCompletes(g, r.s, r.exits);
    ArmsKeep(g, s3, cases, 0, base, Cells(s), returnsValue);
    CompletesEarlier(g, u, s3, {});
    CompletesEarlier(g, s, u, p);
  }

  lemma TouchesCounts(s: State, t: State, p: set<nat>)
    requires Touches(s, t, p)
    ensures Cells(s) <= Cells(t) && s.registers <= t.registers
  {
  }

  lemma ExitsAreOpen(s: State, t: State, exits: seq<Option<nat>>)
    requires Touches(s, t, ExitSet(exits, 0))
    ensures ExitsOpen(t, exits, 0)
  {
    forall j | 0 <= j < |exits| && exits[j].Some?
      ensures 0 < exits[j].value < |t.blocks| && t.blocks[exits[j].value].end.None?
    {
      assert exits[j].value in ExitSet(exits, 0);
    }
  }

  lemma ArmsWait(s: State, t: Type, a: Operand, n: nat)
    requires Open(s)
    ensures var u := OpenMatch(s, t, a, n);
            Waiting(u, |s.blocks|, n) && u.at == s.at && Cells(s) < Cells(u) && s.registers <= u.registers
  {
    var stored := Put(Allocate(s), Store(Cells(s), a));
    NewBlocksAre(if t.EnumType? then Lowering.Define(stored, LoadTag(s.registers, Place(Cells(s), []))) else stored, n);
  }

  /** The selected arm's block is entered with every slot and the matched value in place. */
  lemma ArmEntered(
    g: Graph, u: State, d1: Config, d2: Config, s3: State, base: nat, storage: nat, cases: seq<Case>, k: nat,
    v: Value, env: Env)
    requires Standing(g, u, d1, env) && Selects(g, u, d1, d2, base, Some(k)) && Stored(Place(storage, []), u, d1, v)
    requires s3.locals == u.locals && Cells(u) <= Cells(s3) && u.registers <= s3.registers
    ensures Backed(g, d2) && d2.block == base + k && d2.pc == 0
    ensures LocalsOk(s3) && Matched(env, s3.locals, d2) && Stored(Place(storage, []), s3, d2, v)
  {
    MatchedLater(env, u, d1, d2);
    StoredLater(Place(storage, []), u, d1, v, d2, s3);
  }

  /** Running arm `k` of the arms emitted from `i` on. */
  lemma {:induction false} ArmsGo(
    g: Graph, t: State, c: Config, cases: seq<Case>, i: nat, k: nat, base: nat, storage: nat, returnsValue: bool,
    env: Env, ty: Type, v: Value, fuel: nat)
    returns (d: Config)
    requires i <= k < |cases| && Waiting(t, base + i, |cases| - i)
    requires EmitArms(t, cases, i, base, storage, returnsValue, true).Arms?
    requires Completes(g, EmitArms(t, cases, i, base, storage, returnsValue, true).s)
    requires Backed(g, c) && c.block == base + k && c.pc == 0
    requires LocalsOk(t) && Matched(env, t.locals, c) && Stored(Place(storage, []), t, c, v)
    requires HasType(v, ty) && Analyze(ty, cases[k].pattern).Some? && Matches(cases[k].pattern, v)
    ensures var r := EmitArms(t, cases, i, base, storage, returnsValue, true);
            k - i < |r.exits| && ArmOutcomes(g, c, r.s, r.exits[k - i], d, ExecCase(ty, cases[k], v, env, fuel), fuel)
    decreases fuel, cases, |cases| - i
  {
    hide Touches, EmitArm, Completes, Matched, LocalsOk, Backed, Stored, HasType, Matches, AnalyzeNode, ExecCase, Waiting;
    hide Outcomes, ArmOutcomes;
    var t0 := Position(t, base + i);
    var a := EmitArm(t0, cases[i], storage, returnsValue, true);
    var r := EmitArms(t, cases, i, base, storage, returnsValue, true);
    ArmStates(t, cases, i, base, storage, returnsValue, true);
    ArmsKeep(g, t, cases, i, base, storage, returnsValue);
    ArmsKeep(g, a.s, cases, i + 1, base, storage, returnsValue);
    if i == k {
      CompletesBlocks(g, t, t0);
      StandsAtArm(g, t, t0, c, env, v, storage, base + i);
      d := ArmGoes(g, t0, c, cases[k], storage, returnsValue, env, ty, v, fuel);
      ArmLeaves(g, c, a, r.s, r.exits[0], d, ExecCase(ty, cases[k], v, env, fuel), fuel);
    } else {
      ArmCells(t0, a.s, Exit(a.s, a.terminated));
      LocalsOkMore(t, a.s);
      StoredMore(Place(storage, []), t, c, v, a.s);
      d := ArmsGo(g, a.s, c, cases, i + 1, k, base, storage, returnsValue, env, ty, v, fuel);
    }
  }

  lemma ArmCells(s: State, t: State, open: set<nat>)
    requires Touches(s, t, open)
    ensures Cells(s) <= Cells(t)
  {
  }

  lemma StoredMore(place: Place, s: State, c: Config, v: Value, t: State)
    requires Stored(place, s, c, v) && Cells(s) <= Cells(t)
    ensures Stored(place, t, c, v)
  {
  }

  lemma StandsAtArm(g: Graph, t: State, t0: State, c: Config, env: Env, v: Value, storage: nat, b: nat)
    requires t0 == Position(t, b) && t0.at == b && Open(t0) && Completes(g, t0) && t0.blocks[b].body == []
    requires Backed(g, c) && c.block == b && c.pc == 0
    requires LocalsOk(t) && Matched(env, t.locals, c) && Stored(Place(storage, []), t, c, v)
    ensures Standing(g, t0, c, env) && Stored(Place(storage, []), t0, c, v)
  {
  }

  lemma ArmLeaves(
    g: Graph, c: Config, a: Lowered, s: State, exit: Option<nat>, d: Config, o: Outcome, fuel: nat)
    requires a.Lowered? && Outcomes(g, c, a, d, o, fuel) && exit == ExitOf(a) && s.locals == a.s.locals
    requires !a.terminated ==> a.s.at < |s.blocks| && s.blocks[a.s.at] == a.s.blocks[a.s.at]
    ensures ArmOutcomes(g, c, s, exit, d, o, fuel)
  {
  }

  lemma {:induction false} ArmGoes(
    g: Graph, s: State, c: Config, k: Case, storage: nat, returnsValue: bool, env: Env, t: Type, v: Value, fuel: nat)
    returns (d: Config)
    requires Standing(g, s, c, env) && Stored(Place(storage, []), s, c, v)
    requires EmitArm(s, k, storage, returnsValue, true).Lowered?
    requires Completes(g, EmitArm(s, k, storage, returnsValue, true).s)
    requires HasType(v, t) && Analyze(t, k.pattern).Some? && Matches(k.pattern, v)
    ensures Outcomes(g, c, EmitArm(s, k, storage, returnsValue, true), d, ExecCase(t, k, v, env, fuel), fuel)
    decreases fuel, k
  {
    hide Touches, EmitBind, EmitFrom, Completes, Matched, LocalsOk, Backed, Stored, HasType, Matches, AnalyzeNode, ExecFrom;
    hide Naming, Goes, Bound, Outcomes, BoundSlots;
    var s1 := EmitBind(s, k.pattern, Place(storage, []));
    var b := EmitFrom(s1, k.body, 0, returnsValue, true);
    var r := EmitArm(s, k, storage, returnsValue, true);
    StandingParts(g, s, c, env);
    EmitBindFrame(s, k.pattern, Place(storage, []));
    NamingOpen(s, s1);
    EmitFromFrame(s1, k.body, 0, returnsValue, true);
    CompletesBlocks(g, r.s, b.s);
    CompletesEarlier(g, s1, b.s, Exit(b.s, b.terminated));
    var infos, vs := Analyze(t, k.pattern).value.bindings, Bound(k.pattern, v);
    AnalysisSound(t, k.pattern, [], v);
    AllNew(infos, vs);
    var d1 := BindGoes(g, s, c, k.pattern, Place(storage, []), t, [], v, env);
    GoesAt(g, s, c, s1, d1);
    StandsThere(g, s1, d1, env + BoundSlots(infos, vs));
    d := FromGoes(g, s1, d1, k.body, 0, env + BoundSlots(infos, vs), returnsValue, fuel);
    var o := ExecFrom(k.body, 0, env + BoundSlots(infos, vs), fuel);
    NamingLocals(s, s1);
    ArmScope(g, d1, b, r, d, o, env, s.locals, fuel);
    OutcomesAfter(g, c, 0, d1, r, d, LeaveScope(env, o), fuel);
  }

  lemma NamingLocals(s: State, t: State)
    requires Naming(s, t)
    ensures s.locals <= t.locals
  {
  }

  lemma AllNew(infos: seq<BindingInfo>, vs: seq<Value>)
    requires BindingsTyped(infos[0..], vs)
    ensures NewSlots([], infos, vs) == BoundSlots(infos, vs)
  {
  }

  /** Leaving an arm drops the slots it bound or declared. */
  lemma ArmScope(
    g: Graph, c: Config, b: Lowered, r: Lowered, d: Config, o: Outcome, env: Env, locals: seq<Local>, fuel: nat)
    requires b.Lowered? && r.Lowered? && Outcomes(g, c, b, d, o, fuel) && r == Lowered(b.s.(locals := locals), b.terminated)
    requires o.Falls? ==> Extends(env, o.env)
    requires |env| == |locals| && locals <= b.s.locals
    ensures Outcomes(g, c, r, d, LeaveScope(env, o), fuel)
  {
    if o.Falls? {
      MatchedPrefix(env, o.env, locals, b.s.locals, d);
    }
  }
}
