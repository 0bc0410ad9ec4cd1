/**
 Every lowered statement accounts for its blocks: nothing older is touched, and everything appended is ended
 except the insertion block of a path that continues. So the termination report always agrees with the graph,
 and a finished function has no unended block.
 */
module StatementFrame {
  import opened MachineIntegers
  import opened Options
  import opened Syntax
  import opened Patterns
  import opened Machine
  import opened Lowering
  import opened LoweringFrame

  function Exit(t: State, done: bool): set<nat> {
    if done then {} else {t.at}
  }

  /** From `s`, everything appended is ended but the insertion block, and that is ended exactly if `done`. */
  ghost predicate Flow(s: State, t: State, done: bool) {
    Touches(s, t, Exit(t, done)) && s.locals <= t.locals
  }

  /** The reported termination is that of the insertion block. */
  lemma FlowReports(s: State, t: State, done: bool)
    requires Flow(s, t, done)
    ensures done <==> !Open(t)
  {
  }

  lemma FlowAfter(s: State, t: State, u: State, done: bool)
    requires Touches(s, t, {t.at}) && s.locals <= t.locals && Flow(t, u, done)
    ensures Flow(s, u, done)
  {
    TouchesThrough(s, t, {t.at}, u, Exit(u, done));
    assert {t.at} - {t.at} + Exit(u, done) == Exit(u, done);
  }

  /** A state that differs only in its local table. */
  lemma TouchesLocals(s: State, t: State, p: set<nat>, locals: seq<Local>)
    requires Touches(s, t, p)
    ensures Touches(s, t.(locals := locals), p)
  {
  }

  // ----- joining paths -----

  function ExitSet(exits: seq<Option<nat>>, i: nat): (r: set<nat>)
    ensures forall b :: b in r <==> exists j :: i <= j < |exits| && exits[j] == Some(b)
    decreases |exits| - i
  {
    if i >= |exits| then {}
    else (if exits[i].Some? then {exits[i].value} else {}) + ExitSet(exits, i + 1)
  }

  predicate DistinctExits(exits: seq<Option<nat>>) {
    forall i, j :: 0 <= i < j < |exits| && exits[i].Some? ==> exits[i] != exits[j]
  }

  lemma {:induction false} JoinExitsFrame(s: State, t: State, exits: seq<Option<nat>>, i: nat, merge: nat)
    requires i <= |exits| && DistinctExits(exits) && 0 < merge < |t.blocks|
    requires Touches(s, t, ExitSet(exits, i) + {merge}) && merge !in ExitSet(exits, i)
    ensures var u := JoinExits(t, exits, i, merge);
            Touches(s, u, {merge}) && u.locals == t.locals && |u.blocks| == |t.blocks|
    decreases |exits| - i
  {
    hide Touches;
    if i == |exits| {
      assert ExitSet(exits, i) + {merge} == {merge};
    } else if exits[i].Some? {
      var e := exits[i].value;
      var p := ExitSet(exits, i) + {merge};
      TouchesPosition(s, t, p, e);
      TouchesEnd(s, Position(t, e), p, Br(merge));
      assert e !in ExitSet(exits, i + 1);
      assert p - {e} == ExitSet(exits, i + 1) + {merge};
      JoinExitsFrame(s, End(Position(t, e), Br(merge)), exits, i + 1, merge);
    } else {
      assert ExitSet(exits, i) == ExitSet(exits, i + 1);
      JoinExitsFrame(s, t, exits, i + 1, merge);
    }
  }

  lemma JoinArmsFrame(s: State, t: State, exits: seq<Option<nat>>)
    requires Touches(s, t, ExitSet(exits, 0)) && DistinctExits(exits) && s.locals <= t.locals
    ensures JoinArms(t, exits).Lowered?
    ensures Flow(s, JoinArms(t, exits).s, JoinArms(t, exits).terminated)
  {
    var merge := |t.blocks|;
    if forall i :: 0 <= i < |exits| ==> exits[i].None? {
      assert ExitSet(exits, 0) == {};
    } else {
      TouchesNew(s, t, ExitSet(exits, 0));
      JoinExitsFrame(s, NewBlock(t), exits, 0, merge);
      TouchesPosition(s, JoinExits(NewBlock(t), exits, 0, merge), {merge}, merge);
    }
  }

  /** Joining the two branches of a conditional is joining two exits. */
  lemma JoinIfIsJoinArms(s: State, a: Option<nat>, b: Option<nat>)
    ensures JoinIf(s, a, b) == JoinArms(s, [a, b])
  {
    var exits, merge := [a, b], |s.blocks|;
    var s1 := NewBlock(s);
    var s2 := if a.Some? then End(Position(s1, a.value), Br(merge)) else s1;
    assert exits[0] == a && exits[1] == b;
    assert JoinExits(s1, exits, 0, merge) == JoinExits(s2, exits, 1, merge);
    var s3 := if b.Some? then End(Position(s2, b.value), Br(merge)) else s2;
    assert JoinExits(s2, exits, 1, merge) == JoinExits(s3, exits, 2, merge) == s3;
  }

  // ----- matches -----

  lemma OpenMatchFrame(s: State, t: Type, a: Operand, arms: nat)
    requires Open(s)
    ensures var u := OpenMatch(s, t, a, arms);
            && Touches(s, u, {s.at} + Ids(|s.blocks|, arms))
            && |u.blocks| == |s.blocks| + arms && u.at == s.at && u.locals == s.locals
  {
    var stored := Put(Allocate(s), Store(Cells(s), a));
    var tagged := if t.EnumType? then Lowering.Define(stored, LoadTag(s.registers, Place(Cells(s), []))) else stored;
    TouchesNothing(s);
    TouchesAllocate(s, s, {s.at});
    TouchesPut(s, Allocate(s), {s.at}, Store(Cells(s), a));
    TouchesPut(s, stored, {s.at}, LoadTag(s.registers, Place(Cells(s), [])));
    TouchesNews(s, tagged, {s.at}, arms);
  }

  lemma DispatchedFrame(s: State, c: Operand, arm: nat)
    requires Open(s) && 0 < arm < |s.blocks|
    ensures Plain(s, Dispatched(s, c, arm)) && Open(Dispatched(s, c, arm))
  {
  }

  lemma {:induction false} EmitDispatchFrame(
    s: State, t: Type, cases: seq<Case>, i: nat, base: nat, storage: nat, tag: Option<Operand>)
    requires Open(s) && 0 < base && base + |cases| <= |s.blocks|
    ensures var r := EmitDispatch(s, t, cases, i, base, storage, tag);
            r.Some? ==> Touches(s, r.value, {}) && r.value.locals == s.locals
    decreases |cases| - i, 0
  {
    hide Analyze, EmitCondition, Lowering.Define;
    TouchesNothing(s);
    assert {s.at} - {s.at} == {};
    if i >= |cases| {
      TouchesEnd(s, s, {s.at}, Unreachable);
    } else if Analyze(t, cases[i].pattern).Some? {
      match DispatchOf(Analyze(t, cases[i].pattern).value)
      case Always => TouchesEnd(s, s, {s.at}, Br(base + i));
      case ByTag(k) =>
        if tag.Some? {
          var s1 := Lowering.Define(s, ICmp(s.registers, EQ, tag.value, Constant(Bits(64, k))));
          DefineFrame(s, ICmp(s.registers, EQ, tag.value, Constant(Bits(64, k))));
          DispatchNextFrame(s, s1, Register(s.registers), t, cases, i, base, storage, tag);
        }
      case ByTest =>
        EmitConditionFrame(s, cases[i].pattern, Place(storage, []));
        var r := EmitCondition(s, cases[i].pattern, Place(storage, []));
        DispatchNextFrame(s, r.s, r.a, t, cases, i, base, storage, tag);
    }
  }

  lemma {:induction false} DispatchNextFrame(
    s: State, s1: State, c: Operand, t: Type, cases: seq<Case>, i: nat, base: nat, storage: nat, tag: Option<Operand>)
    requires i < |cases| && Plain(s, s1) && Open(s1) && 0 < base && base + |cases| <= |s.blocks|
    ensures var r := EmitDispatch(Dispatched(s1, c, base + i), t, cases, i + 1, base, storage, tag);
            r.Some? ==> Touches(s, r.value, {}) && r.value.locals == s.locals
    decreases |cases| - i - 1, 1
  {
    hide Touches, EmitDispatch, Dispatched, Open;
    var s2 := Dispatched(s1, c, base + i);
    TouchesLengthens(s, s1, {s1.at});
    DispatchedFrame(s1, c, base + i);
    ThroughPlain(s, s1, s2);
    TouchesLengthens(s, s2, {s2.at});
    EmitDispatchFrame(s2, t, cases, i + 1, base, storage, tag);
    var r := EmitDispatch(s2, t, cases, i + 1, base, storage, tag);
    if r.Some? {
      TouchesThrough(s, s2, {s2.at}, r.value, {});
      assert {s2.at} - {s2.at} + {} == {};
    }
  }

  // ----- statements -----

  ghost predicate StatementFlow(s: State, r: Lowered) {
    r.Lowered? ==> Flow(s, r.s, r.terminated)
  }

  lemma OpenIfFrame(s: State, c: Operand)
    requires Open(s)
    ensures Touches(s, OpenIf(s, c), {|s.blocks|, |s.blocks| + 1})
    ensures OpenIf(s, c).at == |s.blocks| && Open(OpenIf(s, c)) && OpenIf(s, c).locals == s.locals
    ensures |OpenIf(s, c).blocks| == |s.blocks| + 2
  {
  }

  lemma OpenWhileFrame(s: State)
    requires Open(s)
    ensures var n := |s.blocks|;
            && Touches(s, OpenWhile(s), {n, n + 1, n + 2})
            && OpenWhile(s).at == n && Open(OpenWhile(s)) && OpenWhile(s).locals == s.locals
            && |OpenWhile(s).blocks| == n + 3
  {
  }

  /** What a conditional has touched after both branches: only their exits are unended. */
  lemma BranchesFrame(s1: State, a: Operand, s2: State, done2: bool, s3i: State, s3: State, done3: bool)
    requires Open(s1) && Flow(OpenIf(s1, a), s2, done2)
    requires s3i.blocks == s2.blocks && s3i.at == |s1.blocks| + 1 && s3i.registers == s2.registers
    requires Flow(s3i, s3, done3)
    ensures Touches(s1, s3, ExitSet([ExitOf(Lowered(s2, done2)), ExitOf(Lowered(s3, done3))], 0))
    ensures DistinctExits([ExitOf(Lowered(s2, done2)), ExitOf(Lowered(s3, done3))])
    ensures Open(s3i)
  {
    var yes, no := |s1.blocks|, |s1.blocks| + 1;
    OpenIfFrame(s1, a);
    TouchesThrough(s1, OpenIf(s1, a), {yes, no}, s2, Exit(s2, done2));
    var p := {yes, no} - {yes} + Exit(s2, done2);
    assert Touches(s1, s3i, p) by {
      assert s3i == s2.(at := no, locals := s3i.locals);
    }
    TouchesThrough(s1, s3i, p, s3, Exit(s3, done3));
    var exits := [ExitOf(Lowered(s2, done2)), ExitOf(Lowered(s3, done3))];
    assert s2.at != no;
    assert p - {no} + Exit(s3, done3) == Exit(s2, done2) + Exit(s3, done3);
    assert exits[0] == ExitOf(Lowered(s2, done2)) && exits[1] == ExitOf(Lowered(s3, done3));
    assert ExitSet(exits, 2) == {};
    assert ExitSet(exits, 1) == Exit(s3, done3);
    assert ExitSet(exits, 0) == Exit(s2, done2) + Exit(s3, done3);
  }

  lemma TouchesAt(s: State, t: State, p: set<nat>)
    requires Touches(s, t, p)
    ensures (t.at == s.at || t.at >= |s.blocks|) && |s.blocks| <= |t.blocks|
  {
  }

  /** The loop body starts in its own open block; the exit block waits. */
  lemma WhileBodyFrame(s: State, s1: State, a: Operand)
    requires Open(s) && Plain(OpenWhile(s), s1) && Open(s1)
    ensures var s2 := Position(End(s1, CondBr(a, |s.blocks| + 1, |s.blocks| + 2)), |s.blocks| + 1);
            && Touches(s, s2, {|s.blocks| + 1, |s.blocks| + 2})
            && s2.at == |s.blocks| + 1 && Open(s2) && s2.locals == s.locals && |s.blocks| + 2 < |s2.blocks|
  {
    hide Touches, OpenWhile;
    var n := |s.blocks|;
    OpenWhileFrame(s);
    TouchesThrough(s, OpenWhile(s), {n, n + 1, n + 2}, s1, {s1.at});
    TouchesAt(OpenWhile(s), s1, {s1.at});
    var p := {n, n + 1, n + 2} - {n} + {s1.at};
    TouchesEnd(s, s1, p, CondBr(a, n + 1, n + 2));
    assert p - {s1.at} == {n + 1, n + 2};
    TouchesPosition(s, End(s1, CondBr(a, n + 1, n + 2)), {n + 1, n + 2}, n + 1);
    OpenMember(s, Position(End(s1, CondBr(a, n + 1, n + 2)), n + 1), {n + 1, n + 2});
  }

  lemma WhileFrame(s: State, s2: State, s3: State, done: bool)
    requires Touches(s, s2, {|s.blocks| + 1, |s.blocks| + 2}) && s2.at == |s.blocks| + 1
    requires |s.blocks| + 2 < |s2.blocks|
    requires Touches(s2, s3, Exit(s3, done)) && s.locals <= s3.locals
    ensures var r := CloseWhile(s, Lowered(s3, done)); Flow(s, r.s, r.terminated)
  {
    hide Touches;
    var n := |s.blocks|;
    TouchesThrough(s, s2, {n + 1, n + 2}, s3, Exit(s3, done));
    TouchesAt(s2, s3, Exit(s3, done));
    var q := {n + 1, n + 2} - {n + 1} + Exit(s3, done);
    if !done {
      TouchesEnd(s, s3, q, Br(n));
      assert q - {s3.at} == {n + 2};
      TouchesPosition(s, End(s3, Br(n)), {n + 2}, n + 2);
    } else {
      assert q == {n + 2};
      TouchesPosition(s, s3, {n + 2}, n + 2);
    }
  }

  lemma {:induction false} EmitStatementFrame(s: State, stmt: Stmt, returnsValue: bool, pops: bool)
    ensures StatementFlow(s, EmitStatement(s, stmt, returnsValue, pops))
    decreases stmt
  {
    hide Touches, EmitExpr, OpenWhile, OpenMatch, EmitDispatch, EmitArms, JoinArms, CloseWhile, EmitFrom;
    if !Open(s) {
      return;
    }
    TouchesNothing(s);
    match stmt
    case Declare(x, _, _) =>
      TouchesAllocate(s, s, {s.at});
      TouchesLocals(s, Allocate(s), {s.at}, AddLocal(s, x).locals);
    case Assign(x, e) =>
      EmitExprFrame(s, e);
      var i, r := Newest(LocalNames(s.locals), x), EmitExpr(s, e);
      if i.Some? && r.Emitted? {
        TouchesPut(s, r.s, {r.s.at}, Store(s.locals[i.value].cell, r.a));
      }
    case Return(None) =>
      TouchesEnd(s, s, {s.at}, RetVoid);
      assert {s.at} - {s.at} == {};
    case Return(Some(e)) =>
      EmitExprFrame(s, e);
      var r := EmitExpr(s, e);
      if r.Emitted? {
        TouchesEnd(s, r.s, {r.s.at}, Ret(r.a));
        assert {r.s.at} - {r.s.at} == {};
      }
    case If(c, thenBlock, elseBlock) => IfFrame(s, c, thenBlock, elseBlock, returnsValue, pops, stmt);
    case Unsafe(body) =>
      EmitFromFrame(s, body, 0, returnsValue, pops);
      var b := EmitFrom(s, body, 0, returnsValue, pops);
      if b.Lowered? {
        TouchesLocals(s, b.s, Exit(b.s, b.terminated), LeaveBlock(s, b.s, pops).locals);
      }
    case While(c, body) =>
      OpenWhileFrame(s);
      EmitExprFrame(OpenWhile(s), c);
      var r := EmitExpr(OpenWhile(s), c);
      if r.Emitted? {
        var s2 := Position(End(r.s, CondBr(r.a, |s.blocks| + 1, |s.blocks| + 2)), |s.blocks| + 1);
        WhileBodyFrame(s, r.s, r.a);
        EmitFromFrame(s2, body, 0, returnsValue, pops);
        var b := EmitFrom(s2, body, 0, returnsValue, pops);
        if b.Lowered? {
          TouchesLocals(s2, b.s, Exit(b.s, b.terminated), LeaveBlock(s, b.s, pops).locals);
          WhileFrame(s, s2, LeaveBlock(s, b.s, pops), b.terminated);
        }
      }
    case Match(t, scrutinee, cases) =>
      EmitExprFrame(s, scrutinee);
      var r := EmitExpr(s, scrutinee);
      if r.Emitted? && cases != [] {
        MatchFrame(r.s, t, r.a, cases, returnsValue, pops);
        var m := EmitStatement(s, stmt, returnsValue, pops);
        if m.Lowered? {
          FlowAfter(s, r.s, m.s, m.terminated);
        }
      }
  }

  lemma {:induction false} IfFrame(
    s: State, c: Expr, thenBlock: seq<Stmt>, elseBlock: seq<Stmt>, returnsValue: bool, pops: bool, stmt: Stmt)
    requires Open(s) && stmt == If(c, thenBlock, elseBlock)
    ensures StatementFlow(s, EmitStatement(s, stmt, returnsValue, pops))
    decreases stmt, 0
  {
    hide OpenIf, JoinIf, JoinArms, Touches, EmitExpr, EmitFrom, ExitSet, DistinctExits;
    EmitExprFrame(s, c);
    var r := EmitExpr(s, c);
    if r.Emitted? {
      OpenIfFrame(r.s, r.a);
      EmitFromFrame(OpenIf(r.s, r.a), thenBlock, 0, returnsValue, pops);
      var y := EmitFrom(OpenIf(r.s, r.a), thenBlock, 0, returnsValue, pops);
      if y.Lowered? {
        var s3i := Position(LeaveBlock(r.s, y.s, pops), |r.s.blocks| + 1);
        IfElseAt(r.s, r.a, y.s, y.terminated, s3i);
        EmitFromFrame(s3i, elseBlock, 0, returnsValue, pops);
        var n := EmitFrom(s3i, elseBlock, 0, returnsValue, pops);
        if n.Lowered? {
          BranchesFrame(r.s, r.a, y.s, y.terminated, s3i, n.s, n.terminated);
          var exits := [ExitOf(y), ExitOf(n)];
          TouchesLocals(r.s, n.s, ExitSet(exits, 0), LeaveBlock(r.s, n.s, pops).locals);
          JoinIfIsJoinArms(LeaveBlock(r.s, n.s, pops), ExitOf(y), ExitOf(n));
          JoinArmsFrame(r.s, LeaveBlock(r.s, n.s, pops), exits);
          var j := JoinIf(LeaveBlock(r.s, n.s, pops), ExitOf(y), ExitOf(n));
          FlowAfter(s, r.s, j.s, j.terminated);
        }
      }
    }
  }

  lemma IfElseAt(s1: State, a: Operand, s2: State, done: bool, s3i: State)
    requires Open(s1) && Flow(OpenIf(s1, a), s2, done)
    requires s3i.blocks == s2.blocks && s3i == Position(s3i, |s1.blocks| + 1)
    ensures s3i.at == |s1.blocks| + 1 && Open(s3i)
  {
    OpenIfFrame(s1, a);
  }

  lemma {:induction false} EmitFromFrame(s: State, block: seq<Stmt>, i: nat, returnsValue: bool, pops: bool)
    requires Open(s)
    ensures StatementFlow(s, EmitFrom(s, block, i, returnsValue, pops))
    decreases block, |block| - i
  {
    if i >= |block| {
      TouchesNothing(s);
    } else {
      EmitStatementFrame(s, block[i], returnsValue, pops);
      var r := EmitStatement(s, block[i], returnsValue, pops);
      if r.Lowered? && !r.terminated {
        FlowReports(s, r.s, false);
        EmitFromFrame(r.s, block, i + 1, returnsValue, pops);
        var n := EmitFrom(r.s, block, i + 1, returnsValue, pops);
        if n.Lowered? {
          FlowAfter(s, r.s, n.s, n.terminated);
        }
      }
    }
  }

  lemma {:induction false} MatchFrame(
    s: State, t: Type, a: Operand, cases: seq<Case>, returnsValue: bool, pops: bool)
    requires Open(s) && cases != []
    ensures var s2 := OpenMatch(s, t, a, |cases|);
            var d := EmitDispatch(s2, t, cases, 0, |s.blocks|, Cells(s), MatchTag(s, t));
            d.Some? ==>
              var r := EmitArms(d.value, cases, 0, |s.blocks|, Cells(s), returnsValue, pops);
              r.Arms? ==> StatementFlow(s, JoinArms(r.s, r.exits))
    decreases cases, |cases| + 1
  {
    hide OpenMatch, EmitDispatch, JoinArms, Touches;
    OpenMatchFrame(s, t, a, |cases|);
    var s2 := OpenMatch(s, t, a, |cases|);
    var p := {s.at} + Ids(|s.blocks|, |cases|);
    assert Open(s2) by { OpenMember(s, s2, p); }
    EmitDispatchFrame(s2, t, cases, 0, |s.blocks|, Cells(s), MatchTag(s, t));
    var d := EmitDispatch(s2, t, cases, 0, |s.blocks|, Cells(s), MatchTag(s, t));
    if d.Some? {
      TouchesThrough(s, s2, p, d.value, {});
      TouchesLengthens(s2, d.value, {});
      assert p - {s2.at} + {} == {} + Ids(|s.blocks|, |cases|);
      EmitArmsFrame(s, d.value, {}, cases, 0, |s.blocks|, Cells(s), returnsValue, pops);
      var r := EmitArms(d.value, cases, 0, |s.blocks|, Cells(s), returnsValue, pops);
      if r.Arms? {
        assert {} + ExitSet(r.exits, 0) == ExitSet(r.exits, 0);
        JoinArmsFrame(s, r.s, r.exits);
      }
    }
  }

  lemma TouchesLengthens(s: State, t: State, p: set<nat>)
    requires Touches(s, t, p)
    ensures |s.blocks| <= |t.blocks|
  {
  }

  lemma OpenMember(s: State, t: State, p: set<nat>)
    requires Touches(s, t, p) && t.at in p
    ensures Open(t)
  {
  }

  lemma NoArmsLeft(earlier: set<nat>, id: nat)
    ensures earlier + Ids(id, 0) == earlier + ExitSet([], 0)
    ensures earlier !! ExitSet([], 0) && DistinctExits([])
  {
  }

  /** Emitting arms `i` and up: the arms already emitted have exits `earlier`. */
  lemma {:induction false} EmitArmsFrame(
    s: State, t: State, earlier: set<nat>, cases: seq<Case>, i: nat, base: nat, storage: nat,
    returnsValue: bool, pops: bool)
    requires i <= |cases| && |s.blocks| <= base && base + |cases| <= |t.blocks|
    requires Touches(s, t, earlier + Ids(base + i, |cases| - i)) && earlier !! Ids(base + i, |cases| - i)
    ensures var r := EmitArms(t, cases, i, base, storage, returnsValue, pops);
            r.Arms? ==>
              && Touches(s, r.s, earlier + ExitSet(r.exits, 0))
              && earlier !! ExitSet(r.exits, 0) && DistinctExits(r.exits)
              && |r.exits| == |cases| - i && r.s.locals == t.locals
    decreases cases, |cases| - i
  {
    hide EmitArm, Touches, ExitSet, DistinctExits;
    if i == |cases| {
      NoArmsLeft(earlier, base + i);
    } else {
      var p := earlier + Ids(base + i, |cases| - i);
      assert base + i in p;
      TouchesPosition(s, t, p, base + i);
      var t0 := Position(t, base + i);
      OpenMember(s, t0, p);
      EmitArmFrame(t0, cases[i], storage, returnsValue, pops);
      var a := EmitArm(t0, cases[i], storage, returnsValue, pops);
      if a.Lowered? {
        ArmDone(s, t, earlier, t0, a.s, a.terminated, base + i, |cases| - i - 1);
        var done := earlier + Exit(a.s, a.terminated);
        EmitArmsFrame(s, a.s, done, cases, i + 1, base, storage, returnsValue, pops);
        var rest := EmitArms(a.s, cases, i + 1, base, storage, returnsValue, pops);
        if rest.Arms? {
          ExitSetCons(ExitOf(a), rest.exits);
          assert done + ExitSet(rest.exits, 0) == earlier + ExitSet([ExitOf(a)] + rest.exits, 0);
        }
      }
    }
  }

  lemma ExitSetCons(e: Option<nat>, exits: seq<Option<nat>>)
    requires DistinctExits(exits) && (e.Some? ==> e.value !in ExitSet(exits, 0))
    ensures ExitSet([e] + exits, 0) == (if e.Some? then {e.value} else {}) + ExitSet(exits, 0)
    ensures DistinctExits([e] + exits)
  {
    var all := [e] + exits;
    forall b
      ensures b in ExitSet(all, 1) <==> b in ExitSet(exits, 0)
    {
      if b in ExitSet(exits, 0) {
        var j :| 0 <= j < |exits| && exits[j] == Some(b);
        assert all[j + 1] == Some(b);
      }
      if b in ExitSet(all, 1) {
        var j :| 1 <= j < |all| && all[j] == Some(b);
        assert exits[j - 1] == Some(b);
      }
    }
    forall i, j | 0 <= i < j < |all| && all[i].Some?
      ensures all[i] != all[j]
    {
      assert all[j] == exits[j - 1];
      if i > 0 {
        assert all[i] == exits[i - 1];
      }
    }
  }

  lemma ArmDone(
    s: State, t: State, earlier: set<nat>, t0: State, u: State, done: bool, b: nat, more: nat)
    requires Touches(s, t0, earlier + Ids(b, more + 1)) && |s.blocks| <= b && b + more < |t.blocks|
    requires t0 == Position(t, b) && earlier !! Ids(b, more + 1)
    requires Touches(t0, u, Exit(u, done)) && u.locals == t0.locals
    ensures Touches(s, u, earlier + Exit(u, done) + Ids(b + 1, more))
    ensures (earlier + Exit(u, done)) !! Ids(b + 1, more)
    ensures earlier !! Exit(u, done)
    ensures b + more < |u.blocks| && u.locals == t.locals
  {
    assert t0.at == b;
    var p := earlier + Ids(b, more + 1);
    TouchesThrough(s, t0, p, u, Exit(u, done));
    assert p - {b} + Exit(u, done) == earlier + Exit(u, done) + Ids(b + 1, more);
  }

  lemma {:induction false} EmitArmFrame(s: State, c: Case, storage: nat, returnsValue: bool, pops: bool)
    requires Open(s)
    ensures var r := EmitArm(s, c, storage, returnsValue, pops);
            r.Lowered? ==> Touches(s, r.s, Exit(r.s, r.terminated)) && r.s.locals == s.locals
    decreases c
  {
    EmitBindFrame(s, c.pattern, Place(storage, []));
    var s1 := EmitBind(s, c.pattern, Place(storage, []));
    EmitFromFrame(s1, c.body, 0, returnsValue, pops);
    var r := EmitFrom(s1, c.body, 0, returnsValue, pops);
    if r.Lowered? {
      FlowAfter(s, s1, r.s, r.terminated);
    }
  }

  // ----- whole functions -----

  /** A graph in which control can never run off a block or jump outside. */
  ghost predicate WellFormed(g: Graph) {
    && |g| >= 2
    && g[0].end == Some(Br(1)) && Allocates(g[0])
    && forall b :: 0 < b < |g| ==>
         g[b].end.Some? && TargetsIn(g[b].end.value, |g|) && AllocatesNothing(g[b])
  }

  lemma {:induction false} StoreParametersFrame(s: State, names: seq<string>, i: nat)
    requires Open(s)
    ensures Naming(s, StoreParameters(s, names, i))
    decreases |names| - i
  {
    if i < |names| {
      var s1 := Put(AddLocal(s, names[i]), Store(Cells(s), Register(i)));
      assert Naming(s, s1);
      StoreParametersFrame(s1, names, i + 1);
      NamingThrough(s, s1, StoreParameters(s1, names, i + 1));
    }
  }

  /**
   Every emitted function is well formed: each block ends in exactly one terminator, whose targets are body
   blocks of the function, and stack cells are allocated only in the allocation block, each exactly once.
   */
  lemma EmittedFunctionWellFormed(names: seq<string>, body: seq<Stmt>, returnsValue: bool, pops: bool)
    ensures var g := EmitFunction(names, body, returnsValue, pops);
            g.Some? ==> WellFormed(g.value)
  {
    hide EmitFrom, StoreParameters;
    var s0 := StartFunction(|names|);
    var s1 := StoreParameters(s0, names, 0);
    StoreParametersFrame(s0, names, 0);
    EmitFromFrame(s1, body, 0, returnsValue, pops);
    var r := EmitFrom(s1, body, 0, returnsValue, pops);
    if r.Lowered? {
      FlowAfter(s0, s1, r.s, r.terminated);
      FlowReports(s0, r.s, r.terminated);
    }
  }
}
