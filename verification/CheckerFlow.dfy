/** What acceptance says about control flow: fall-through verdicts, coverage, and success of emission. */
module CheckerFlow {
  import opened Options
  import opened Syntax
  import opened Patterns
  import opened Source
  import opened Lowering
  import opened StatementSimulation
  import opened Termination
  import opened Checker

  // ----- the table of locals -----

  /** Checking changes facts and adds locals; the locals it started with keep everything else. */
  predicate Keeps(before: Locals, after: Locals) {
    && |before| <= |after|
    && forall i :: 0 <= i < |before| ==> after[i] == before[i].(fact := after[i].fact)
  }

  lemma KeepsThrough(a: Locals, b: Locals, c: Locals)
    requires Keeps(a, b) && Keeps(b, c)
    ensures Keeps(a, c)
  {
  }

  lemma TransferKeeps(e: Expr, locals: Locals, dest: Option<nat>)
    ensures var r := Transfer(e, locals, dest); r.Accepted? ==> Keeps(locals, r.locals) && |r.locals| == |locals|
  {
  }

  /** A statement other than a declaration leaves the table at its length. */
  lemma {:induction false} StatementKeeps(stmt: Stmt, locals: Locals, depth: nat, output: Option<Type>)
    ensures var r := CheckStatement(stmt, locals, depth, output);
            r.Accepted? ==> Keeps(locals, r.locals) && (!stmt.Declare? ==> |r.locals| == |locals|)
    decreases stmt
  {
    hide TypeOf, Transfer, CheckBlock, CheckCases, MoveOnly;
    match stmt
    case Declare(_, _, _) =>
    case Assign(x, e) =>
      var i := Newest(NamesOf(locals), x);
      if i.Some? {
        TransferKeeps(e, locals, Some(i.value));
      }
    case Return(result) =>
      if result.Some? {
        TransferKeeps(result.value, locals, None);
      }
    case If(_, thenBlock, elseBlock) =>
      BlockKeeps(thenBlock, locals, depth, output);
      BlockKeeps(elseBlock, locals, depth, output);
    case While(_, body) => BlockKeeps(body, locals, depth, output);
    case Unsafe(body) => BlockKeeps(body, locals, depth, output);
    case Match(t, _, cases) => CasesKeep(t, cases, 0, Coverage(false, {}), None, locals, depth, output);
  }

  lemma {:induction false} BlockKeeps(block: seq<Stmt>, locals: Locals, depth: nat, output: Option<Type>)
    ensures var r := CheckBlock(block, locals, depth, output);
            r.Accepted? ==> Keeps(locals, r.locals) && |r.locals| == |locals|
    decreases block, |block| + 1
  {
    FromKeeps(block, 0, locals, depth + 1, output);
  }

  lemma {:induction false} FromKeeps(block: seq<Stmt>, i: nat, locals: Locals, depth: nat, output: Option<Type>)
    ensures var r := CheckFrom(block, i, locals, depth, output); r.Accepted? ==> Keeps(locals, r.locals)
    decreases block, |block| - i
  {
    if i < |block| {
      StatementKeeps(block[i], locals, depth, output);
      var r := CheckStatement(block[i], locals, depth, output);
      if r.Accepted? && r.falls {
        FromKeeps(block, i + 1, r.locals, depth, output);
      }
    }
  }

  lemma {:induction false} CasesKeep(
    t: Type, cases: seq<Case>, i: nat, coverage: Coverage, merged: Option<seq<Fact>>, locals: Locals, depth: nat,
    output: Option<Type>)
    ensures var r := CheckCases(t, cases, i, coverage, merged, locals, depth, output);
            r.Accepted? ==> Keeps(locals, r.locals) && |r.locals| == |locals|
    decreases |cases| - i
  {
    hide AnalyzeNode, CheckCase;
    if i < |cases| && !coverage.all && Analyze(t, cases[i].pattern).Some? {
      var info := Analyze(t, cases[i].pattern).value;
      var r := CheckCase(cases[i], info, locals, depth, output);
      if Reachable(coverage, info) && r.Accepted? {
        CasesKeep(t, cases, i + 1, Cover(coverage, info), Gathered(merged, FactsOf(r.locals), r.falls), locals, depth, output);
      }
    }
  }

  lemma CaseKeeps(c: Case, info: Info, locals: Locals, depth: nat, output: Option<Type>)
    ensures var r := CheckCase(c, info, locals, depth, output);
            r.Accepted? ==> Keeps(locals, r.locals) && |r.locals| == |locals|
  {
    BlockKeeps(c.body, locals + BoundLocals(info.bindings, depth + 1), depth, output);
  }

  /** Every case passed its own check. */
  lemma {:induction false} CasesAccepted(
    t: Type, cases: seq<Case>, i: nat, coverage: Coverage, merged: Option<seq<Fact>>, locals: Locals, depth: nat,
    output: Option<Type>)
    requires CheckCases(t, cases, i, coverage, merged, locals, depth, output).Accepted?
    ensures forall j :: i <= j < |cases| ==>
              Analyze(t, cases[j].pattern).Some?
              && CheckCase(cases[j], Analyze(t, cases[j].pattern).value, locals, depth, output).Accepted?
    ensures i == 0 && !coverage.all && coverage.constructors == {} ==> cases != []
    decreases |cases| - i
  {
    hide AnalyzeNode, CheckCase, Reachable, Cover;
    if i < |cases| {
      var info := Analyze(t, cases[i].pattern).value;
      var r := CheckCase(cases[i], info, locals, depth, output);
      CasesAccepted(t, cases, i + 1, Cover(coverage, info), Gathered(merged, FactsOf(r.locals), r.falls), locals, depth, output);
    }
  }

  // ----- fall-through -----

  /** The checker's fall-through verdict is that the statement does not end its path. */
  lemma {:induction false} StatementFalls(stmt: Stmt, locals: Locals, depth: nat, output: Option<Type>)
    ensures var r := CheckStatement(stmt, locals, depth, output); r.Accepted? ==> (r.falls <==> !Ends(stmt))
    decreases stmt
  {
    match stmt
    case Declare(_, _, _) =>
    case Assign(_, _) =>
    case Return(_) =>
    case If(_, thenBlock, elseBlock) =>
      BlockFalls(thenBlock, locals, depth, output);
      BlockFalls(elseBlock, locals, depth, output);
    case While(_, _) =>
    case Unsafe(body) => BlockFalls(body, locals, depth, output);
    case Match(t, _, cases) =>
      CasesFall(t, cases, 0, Coverage(false, {}), None, locals, depth, output);
      var r := CheckCases(t, cases, 0, Coverage(false, {}), None, locals, depth, output);
      if r.Accepted? {
        assert cases != [];
      }
  }

  lemma {:induction false} BlockFalls(block: seq<Stmt>, locals: Locals, depth: nat, output: Option<Type>)
    ensures var r := CheckBlock(block, locals, depth, output); r.Accepted? ==> (r.falls <==> !EndsFrom(block, 0))
    decreases block, |block| + 1
  {
    FromFalls(block, 0, locals, depth + 1, output);
  }

  lemma {:induction false} FromFalls(block: seq<Stmt>, i: nat, locals: Locals, depth: nat, output: Option<Type>)
    ensures var r := CheckFrom(block, i, locals, depth, output); r.Accepted? ==> (r.falls <==> !EndsFrom(block, i))
    decreases block, |block| - i
  {
    if i < |block| {
      StatementFalls(block[i], locals, depth, output);
      var r := CheckStatement(block[i], locals, depth, output);
      if r.Accepted? && r.falls {
        FromFalls(block, i + 1, r.locals, depth, output);
      }
    }
  }

  lemma {:induction false} CasesFall(
    t: Type, cases: seq<Case>, i: nat, coverage: Coverage, merged: Option<seq<Fact>>, locals: Locals, depth: nat,
    output: Option<Type>)
    ensures var r := CheckCases(t, cases, i, coverage, merged, locals, depth, output);
            r.Accepted? ==> (r.falls <==> merged.Some? || exists j :: i <= j < |cases| && !EndsCase(cases[j]))
    decreases cases, |cases| - i
  {
    hide AnalyzeNode, CheckCase, Reachable, Cover;
    if i < |cases| && !coverage.all && Analyze(t, cases[i].pattern).Some? {
      var info := Analyze(t, cases[i].pattern).value;
      var r := CheckCase(cases[i], info, locals, depth, output);
      if Reachable(coverage, info) && r.Accepted? {
        CaseFalls(cases[i], info, locals, depth, output);
        var next := Gathered(merged, FactsOf(r.locals), r.falls);
        CasesFall(t, cases, i + 1, Cover(coverage, info), next, locals, depth, output);
        assert next.Some? <==> merged.Some? || !EndsCase(cases[i]);
      }
    }
  }

  lemma {:induction false} CaseFalls(c: Case, info: Info, locals: Locals, depth: nat, output: Option<Type>)
    ensures var r := CheckCase(c, info, locals, depth, output); r.Accepted? ==> (r.falls <==> !EndsCase(c))
    decreases c
  {
    BlockFalls(c.body, locals + BoundLocals(info.bindings, depth + 1), depth, output);
  }

  /** A body whose checked verdict is that it does not fall through returns on every run that ends without a trap. */
  lemma NonFallingReturns(
    block: seq<Stmt>, locals: Locals, depth: nat, output: Option<Type>, env: Env, fuel: nat)
    requires CheckBlock(block, locals, depth, output).Accepted? && !CheckBlock(block, locals, depth, output).falls
    ensures !ExecFrom(block, 0, env, fuel).Falls?
  {
    BlockFalls(block, locals, depth, output);
    EndedNeverFallsFrom(block, 0, env, fuel);
  }

  /** The checker and the emitter agree about every path. */
  lemma VerdictIsTermination(
    stmt: Stmt, locals: Locals, depth: nat, output: Option<Type>, s: State, returnsValue: bool, pops: bool)
    requires CheckStatement(stmt, locals, depth, output).Accepted?
    requires EmitStatement(s, stmt, returnsValue, pops).Lowered?
    ensures CheckStatement(stmt, locals, depth, output).falls <==> !EmitStatement(s, stmt, returnsValue, pops).terminated
  {
    StatementFalls(stmt, locals, depth, output);
    EmissionEnds(s, stmt, returnsValue, pops);
  }

  // ----- coverage -----

  /** The constructor numbers of a type. */
  function Constructors(n: nat): (r: set<nat>)
    ensures |r| == n && forall k: nat :: k in r <==> k < n
  {
    if n == 0 then {} else Constructors(n - 1) + {n - 1}
  }

  lemma SubsetFull(a: set<nat>, b: set<nat>)
    requires a <= b && |a| == |b|
    ensures a == b
  {
    forall k | k in b
      ensures k in a
    {
      if k !in a {
        SubsetSize(a, b - {k});
      }
    }
  }

  lemma {:induction false} SubsetSize(a: set<nat>, b: set<nat>)
    requires a <= b
    ensures |a| <= |b|
    decreases |a|
  {
    if a != {} {
      var k :| k in a;
      SubsetSize(a - {k}, b - {k});
    }
  }

  /** A value that some case before `i` matches. */
  predicate MatchedBefore(cases: seq<Case>, i: nat, v: Value) {
    exists j :: 0 <= j < i && j < |cases| && Matches(cases[j].pattern, v)
  }

  /** Everything recorded as covered really is matched by an earlier case. */
  ghost predicate CoverageSound(t: Type, cases: seq<Case>, i: nat, c: Coverage) {
    && (forall k :: k in c.constructors ==> t.EnumType? && k < |t.constructors|)
    && (c.all ==> forall v :: HasType(v, t) ==> MatchedBefore(cases, i, v))
    && forall v :: HasType(v, t) && v.Tagged? && v.tag in c.constructors ==> MatchedBefore(cases, i, v)
  }

  lemma CoverageStep(t: Type, cases: seq<Case>, i: nat, c: Coverage, info: Info)
    requires CoverageSound(t, cases, i, c) && i < |cases| && Analyze(t, cases[i].pattern) == Some(info)
    ensures CoverageSound(t, cases, i + 1, Cover(c, info))
  {
    hide HasType, Matches, AnalyzeNode;
    var p := cases[i].pattern;
    var next := Cover(c, info);
    if info.tag.Some? {
      TagInRange(t, p);
    }
    forall v | HasType(v, t)
      ensures (next.all ==> MatchedBefore(cases, i + 1, v))
              && (v.Tagged? && v.tag in next.constructors ==> MatchedBefore(cases, i + 1, v))
    {
      AnalysisSound(t, p, [], v);
      if MatchedBefore(cases, i, v) {
        var j :| 0 <= j < i && j < |cases| && Matches(cases[j].pattern, v);
        assert MatchedBefore(cases, i + 1, v);
      } else if Matches(p, v) {
        assert MatchedBefore(cases, i + 1, v);
      }
    }
  }

  /** With every constructor covered, or everything covered, each value of the type is matched. */
  lemma ExhaustiveCovers(t: Type, cases: seq<Case>, c: Coverage, v: Value)
    requires CoverageSound(t, cases, |cases|, c) && Exhaustive(t, c) && HasType(v, t)
    ensures exists j :: 0 <= j < |cases| && Matches(cases[j].pattern, v)
  {
    if !c.all {
      assert c.constructors <= Constructors(ConstructorCount(t));
      SubsetFull(c.constructors, Constructors(ConstructorCount(t)));
      assert v.tag in c.constructors;
    }
    assert MatchedBefore(cases, |cases|, v);
  }

  lemma {:induction false} CasesCover(
    t: Type, cases: seq<Case>, i: nat, coverage: Coverage, merged: Option<seq<Fact>>, locals: Locals, depth: nat,
    output: Option<Type>, v: Value)
    requires i <= |cases| && CoverageSound(t, cases, i, coverage) && HasType(v, t)
    requires CheckCases(t, cases, i, coverage, merged, locals, depth, output).Accepted?
    ensures exists j :: 0 <= j < |cases| && Matches(cases[j].pattern, v)
    ensures forall j :: i <= j < |cases| ==> Analyze(t, cases[j].pattern).Some?
    decreases |cases| - i
  {
    hide AnalyzeNode, HasType, Matches, CheckCase, Reachable, CoverageSound;
    if i == |cases| {
      ExhaustiveCovers(t, cases, coverage, v);
    } else {
      var info := Analyze(t, cases[i].pattern).value;
      CoverageStep(t, cases, i, coverage, info);
      var r := CheckCase(cases[i], info, locals, depth, output);
      CasesCover(t, cases, i + 1, Cover(coverage, info), Gathered(merged, FactsOf(r.locals), r.falls), locals, depth, output, v);
    }
  }

  /** Accepted matches are exhaustive: every value of the matched type is matched by some case. */
  lemma AcceptedMatchExhaustive(
    t: Type, scrutinee: Expr, cases: seq<Case>, locals: Locals, depth: nat, output: Option<Type>, v: Value)
    requires CheckStatement(Match(t, scrutinee, cases), locals, depth, output).Accepted? && HasType(v, t)
    ensures FirstMatch(cases, 0, v).Some?
    ensures Analyzed(t, cases)
  {
    hide CheckCases, HasType, Matches, AnalyzeNode;
    CasesCover(t, cases, 0, Coverage(false, {}), None, locals, depth, output, v);
  }

  /** The coverage the checker has recorded when it comes to case `i`. */
  function CoverageAt(t: Type, cases: seq<Case>, i: nat): Coverage
    decreases i
  {
    if i == 0 || i > |cases| then Coverage(false, {})
    else
      match Analyze(t, cases[i - 1].pattern)
      case None => Coverage(false, {})
      case Some(info) => Cover(CoverageAt(t, cases, i - 1), info)
  }

  lemma {:induction false} CoverageAtSound(t: Type, cases: seq<Case>, i: nat)
    requires i <= |cases| && forall j :: 0 <= j < i ==> Analyze(t, cases[j].pattern).Some?
    ensures CoverageSound(t, cases, i, CoverageAt(t, cases, i))
  {
    hide AnalyzeNode, HasType;
    if i > 0 {
      CoverageAtSound(t, cases, i - 1);
      CoverageStep(t, cases, i - 1, CoverageAt(t, cases, i - 1), Analyze(t, cases[i - 1].pattern).value);
    }
  }

  /** A case reported unreachable matches only values that an earlier case already matches. */
  lemma UnreachableReportsTrue(t: Type, cases: seq<Case>, i: nat, v: Value)
    requires i < |cases| && forall j :: 0 <= j <= i ==> Analyze(t, cases[j].pattern).Some?
    requires !Reachable(CoverageAt(t, cases, i), Analyze(t, cases[i].pattern).value)
    requires HasType(v, t) && Matches(cases[i].pattern, v)
    ensures exists j :: 0 <= j < i && Matches(cases[j].pattern, v)
  {
    hide AnalyzeNode;
    CoverageAtSound(t, cases, i);
    AnalysisSound(t, cases[i].pattern, [], v);
    assert MatchedBefore(cases, i, v);
  }
}
