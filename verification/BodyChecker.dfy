/**
 The body checker itself: a context of locals, scope depth and fall-through updated in place, with snapshots of
 facts captured, restored and merged. Each method is proved to do what its specification in `Checker` says.
 */
module BodyChecker {
  import opened Options
  import opened Syntax
  import opened Patterns
  import opened Checker
  import opened CheckerFlow

  class BodyContext {
    var locals: Locals
    var scopeDepth: nat
    var fallsThrough: bool
    var unsafeDepth: nat
    var diagnostic: Option<Error>
    const output: Option<Type>

    constructor (parameters: seq<Parameter>, result: Option<Type>)
      ensures locals == ParameterLocals(parameters) && scopeDepth == 0 && output == result && diagnostic.None?
    {
      locals := ParameterLocals(parameters);
      scopeDepth := 0;
      fallsThrough := true;
      unsafeDepth := 0;
      diagnostic := None;
      output := result;
    }

    // ----- locals -----

    /** Searches the locals from the newest. */
    method FindLocal(x: string) returns (r: Option<nat>)
      ensures r == Newest(NamesOf(locals), x)
    {
      var i := |locals|;
      ghost var names := NamesOf(locals);
      assert names[..i] == names;
      while i > 0
        invariant 0 <= i <= |locals|
        invariant Newest(names, x) == Newest(names[..i], x)
      {
        i := i - 1;
        assert names[..i + 1][..i] == names[..i];
        if locals[i].name == x {
          return Some(i);
        }
      }
      return None;
    }

    method NameExistsInCurrentScope(x: string) returns (found: bool)
      ensures found <==> DeclaredAt(locals, x, scopeDepth)
    {
      var i := |locals|;
      while i > 0
        invariant 0 <= i <= |locals|
        invariant forall k :: i <= k < |locals| ==> !(locals[k].depth == scopeDepth && locals[k].name == x)
      {
        i := i - 1;
        if locals[i].depth == scopeDepth && locals[i].name == x {
          return true;
        }
      }
      return false;
    }

    // ----- facts -----

    method Capture() returns (snapshot: array<Fact>)
      ensures fresh(snapshot) && snapshot[..] == FactsOf(locals)
    {
      snapshot := new Fact[|locals|](_ => Uninitialized);
      for i := 0 to |locals|
        invariant snapshot.Length == |locals|
        invariant snapshot[..i] == FactsOf(locals)[..i]
      {
        snapshot[i] := locals[i].fact;
      }
    }

    method Restore(snapshot: array<Fact>)
      modifies this`locals
      ensures locals == Restored(old(locals), snapshot[..])
    {
      ghost var before := locals;
      var count := if snapshot.Length < |locals| then snapshot.Length else |locals|;
      for i := 0 to count
        invariant |locals| == |before|
        invariant forall k :: 0 <= k < i ==> locals[k] == before[k].(fact := snapshot[k])
        invariant forall k :: i <= k < |before| ==> locals[k] == before[k]
      {
        locals := locals[i := locals[i].(fact := snapshot[i])];
      }
    }

    method Merge(left: array<Fact>, right: array<Fact>)
      modifies this`locals
      ensures locals == Merged(old(locals), left[..], right[..])
    {
      ghost var before := locals;
      var count := if left.Length < right.Length then left.Length else right.Length;
      if count > |locals| {
        count := |locals|;
      }
      for i := 0 to count
        invariant |locals| == |before|
        invariant forall k :: 0 <= k < i ==> locals[k] == before[k].(fact := MergeFact(left[k], right[k]))
        invariant forall k :: i <= k < |before| ==> locals[k] == before[k]
      {
        locals := locals[i := locals[i].(fact := MergeFact(left[i], right[i]))];
      }
    }

    method Fail(e: Error)
      modifies this`diagnostic
      ensures diagnostic == Some(e)
    {
      diagnostic := Some(e);
    }

    /** What a checking method has done, given the specified verdict. */
    ghost predicate Gives(ok: bool, v: Verdict)
      reads this
    {
      match v
      case Refused(e) => !ok && diagnostic == Some(e)
      case Accepted(after, falls) => ok && locals == after && fallsThrough == falls
    }

    /** Applies the ownership effect of copying an expression to `dest`. */
    method TransferExpression(e: Expr, dest: Option<nat>) returns (ok: bool)
      modifies this`locals, this`diagnostic
      ensures match Transfer(e, old(locals), dest)
              case Refused(error) => !ok && diagnostic == Some(error)
              case Accepted(after, _) => ok && locals == after
    {
      hide MoveOnly, FieldType;
      if !e.Read? {
        return true;
      }
      var source := FindLocal(e.name);
      if source.None? {
        return true;
      }
      if e.path != [] {
        var t := FieldType(locals[source.value].t, e.path);
        if t.None? {
          Fail(MismatchedTypes);
          return false;
        }
        if MoveOnly(t.value) {
          Fail(PartialOwnedMove);
          return false;
        }
        return true;
      }
      if source == dest || !MoveOnly(locals[source.value].t) {
        return true;
      }
      if locals[source.value].fact != Initialized {
        Fail(UseAfterMove);
        return false;
      }
      locals := locals[source.value := locals[source.value].(fact := Moved)];
      ok := true;
    }

    // ----- statements -----

    method DeclareLocal(x: string, t: Type, mutable: bool) returns (ok: bool)
      requires fallsThrough
      modifies this`locals, this`diagnostic
      ensures Gives(ok, Checker.CheckStatement(Declare(x, t, mutable), old(locals), scopeDepth, output))
    {
      var present := NameExistsInCurrentScope(x);
      if present {
        Fail(DuplicateDeclaration);
        return false;
      }
      locals := locals + [CheckedLocal(x, t, mutable, Uninitialized, scopeDepth)];
      ok := true;
    }

    method CheckCopy(x: string, e: Expr) returns (ok: bool)
      requires fallsThrough
      modifies this`locals, this`diagnostic
      ensures Gives(ok, CheckAssign(x, e, old(locals)))
    {
      hide TypeOf, MoveOnly;
      var i := FindLocal(x);
      if i.None? {
        Fail(UnknownName);
        return false;
      }
      if !locals[i.value].mutable && locals[i.value].fact == Initialized {
        Fail(WriteToImmutable);
        return false;
      }
      var t := TypeOf(e, locals);
      if t.TypeError? {
        Fail(t.error);
        return false;
      }
      if t.t != locals[i.value].t {
        Fail(MismatchedTypes);
        return false;
      }
      TransferKeeps(e, locals, i);
      ok := TransferExpression(e, i);
      if ok {
        locals := locals[i.value := locals[i.value].(fact := Initialized)];
      }
    }

    method CheckReturn(result: Option<Expr>) returns (ok: bool)
      requires fallsThrough
      modifies this`locals, this`diagnostic, this`fallsThrough
      ensures Gives(ok, Checker.CheckReturn(result, old(locals), output))
    {
      hide TypeOf, MoveOnly, Transfer;
      if result.None? {
        if output.Some? {
          Fail(MismatchedTypes);
          return false;
        }
        fallsThrough := false;
        return true;
      }
      if output.None? {
        Fail(MismatchedTypes);
        return false;
      }
      var t := TypeOf(result.value, locals);
      if t.TypeError? {
        Fail(t.error);
        return false;
      }
      if t.t != output.value {
        Fail(MismatchedTypes);
        return false;
      }
      ok := true;
      if MoveOnly(output.value) {
        ok := TransferExpression(result.value, None);
      }
      fallsThrough := if ok then false else fallsThrough;
    }

    method CheckCondition(c: Expr) returns (ok: bool)
      modifies this`diagnostic
      ensures match TypeOf(c, locals)
              case TypeError(e) => !ok && diagnostic == Some(e)
              case Typed(t) => (ok <==> BoolConvertible(t)) && (!ok ==> diagnostic == Some(MismatchedTypes))
    {
      hide TypeOf;
      var t := TypeOf(c, locals);
      if t.TypeError? {
        Fail(t.error);
        return false;
      }
      if !BoolConvertible(t.t) {
        Fail(MismatchedTypes);
        return false;
      }
      ok := true;
    }

    method CheckStatement(stmt: Stmt) returns (ok: bool)
      requires fallsThrough
      modifies this
      ensures Gives(ok, Checker.CheckStatement(stmt, old(locals), old(scopeDepth), output))
      ensures ok ==> scopeDepth == old(scopeDepth) && unsafeDepth == old(unsafeDepth)
      decreases stmt, 1
    {
      hide TypeOf, CheckBlock, CheckCases, CheckAssign, Checker.CheckReturn;
      match stmt
      case Declare(x, t, mutable) => ok := DeclareLocal(x, t, mutable);
      case Assign(x, e) => ok := CheckCopy(x, e);
      case Return(result) => ok := CheckReturn(result);
      case If(c, thenBlock, elseBlock) => ok := CheckIf(c, thenBlock, elseBlock, stmt);
      case While(c, body) => ok := CheckWhile(c, body, stmt);
      case Unsafe(body) =>
        unsafeDepth := unsafeDepth + 1;
        ok := CheckBlockFlow(body);
        if ok {
          unsafeDepth := unsafeDepth - 1;
        }
      case Match(t, scrutinee, cases) =>
        var valueType := TypeOf(scrutinee, locals);
        if valueType.TypeError? {
          Fail(valueType.error);
          return false;
        }
        if valueType.t != t {
          Fail(MismatchedTypes);
          return false;
        }
        ok := CheckMatch(t, cases);
    }

    /** Checks a nested block one level deeper; its locals end with it. */
    method CheckBlockFlow(block: seq<Stmt>) returns (ok: bool)
      modifies this
      ensures Gives(ok, CheckBlock(block, old(locals), old(scopeDepth), output))
      ensures ok ==> scopeDepth == old(scopeDepth) && unsafeDepth == old(unsafeDepth)
      decreases block, |block| + 1
    {
      hide Checker.CheckStatement;
      var savedCount := |locals|;
      ghost var before, depth := locals, scopeDepth + 1;
      FromKeeps(block, 0, before, depth, output);
      scopeDepth := scopeDepth + 1;
      var falls := true;
      var index := 0;
      while index < |block| && falls
        invariant index <= |block| && scopeDepth == depth && unsafeDepth == old(unsafeDepth)
        invariant falls ==> CheckFrom(block, 0, before, depth, output) == CheckFrom(block, index, locals, depth, output)
        invariant !falls ==> CheckFrom(block, 0, before, depth, output) == Accepted(locals, false)
        decreases |block| - index
      {
        fallsThrough := true;
        ok := CheckStatement(block[index]);
        if !ok {
          return;
        }
        falls := fallsThrough;
        index := index + 1;
      }
      locals := locals[..savedCount];
      scopeDepth := scopeDepth - 1;
      fallsThrough := falls;
      ok := true;
    }

    method CheckIf(c: Expr, thenBlock: seq<Stmt>, elseBlock: seq<Stmt>, ghost stmt: Stmt) returns (ok: bool)
      requires fallsThrough && stmt == If(c, thenBlock, elseBlock)
      modifies this
      ensures Gives(ok, Checker.CheckStatement(stmt, old(locals), old(scopeDepth), output))
      ensures ok ==> scopeDepth == old(scopeDepth) && unsafeDepth == old(unsafeDepth)
      decreases stmt, 0
    {
      hide TypeOf, CheckBlock;
      ok := CheckCondition(c);
      if !ok {
        return;
      }
      ghost var start := locals;
      BlockKeeps(thenBlock, start, scopeDepth, output);
      BlockKeeps(elseBlock, start, scopeDepth, output);
      var before := Capture();
      ok := CheckBlockFlow(thenBlock);
      if !ok {
        return;
      }
      var thenFalls := fallsThrough;
      var afterThen := Capture();
      ghost var thenLocals := locals;
      Restore(before);
      RestoredBack(start, thenLocals);
      ok := CheckBlockFlow(elseBlock);
      if !ok {
        return;
      }
      var elseFalls := fallsThrough;
      var afterElse := Capture();
      ghost var elseLocals := locals;
      if thenFalls && elseFalls {
        Merge(afterThen, afterElse);
        MergedSame(start, elseLocals, FactsOf(thenLocals));
      } else if thenFalls {
        Restore(afterThen);
        RestoredSame(start, elseLocals, FactsOf(thenLocals));
      } else if elseFalls {
        Restore(afterElse);
        RestoredSame(start, elseLocals, FactsOf(elseLocals));
      } else {
        Restore(before);
        RestoredBack(start, elseLocals);
      }
      fallsThrough := thenFalls || elseFalls;
    }

    method CheckWhile(c: Expr, body: seq<Stmt>, ghost stmt: Stmt) returns (ok: bool)
      requires fallsThrough && stmt == While(c, body)
      modifies this
      ensures Gives(ok, Checker.CheckStatement(stmt, old(locals), old(scopeDepth), output))
      ensures ok ==> scopeDepth == old(scopeDepth) && unsafeDepth == old(unsafeDepth)
      decreases stmt, 0
    {
      hide TypeOf, CheckBlock;
      ok := CheckCondition(c);
      if !ok {
        return;
      }
      ghost var start := locals;
      BlockKeeps(body, start, scopeDepth, output);
      var before := Capture();
      ok := CheckBlockFlow(body);
      if !ok {
        return;
      }
      var bodyFalls := fallsThrough;
      var afterBody := Capture();
      ghost var bodyLocals := locals;
      Restore(before);
      RestoredBack(start, bodyLocals);
      if bodyFalls {
        Merge(before, afterBody);
      }
      // the body may run zero times
      fallsThrough := true;
    }

    // ----- matches -----

    /** Records the constructor a pattern covers; fails if an earlier case covers it already. */
    static method RecordCoverage(t: Type, p: Pattern, info: Info, covered: array<bool>, ghost all: bool)
      returns (ok: bool, added: nat)
      requires Analyze(t, p) == Some(info) && covered.Length == ConstructorCount(t) && !all
      modifies covered
      ensures ok <==> Reachable(Coverage(all, old(CoveredSet(covered[..]))), info)
      ensures ok ==> |CoveredSet(covered[..])| == |old(CoveredSet(covered[..]))| + added
      ensures ok ==> Cover(Coverage(all, old(CoveredSet(covered[..]))), info)
                     == Coverage(all || info.irrefutable, CoveredSet(covered[..]))
    {
      hide AnalyzeNode, CoveredSet;
      added := 0;
      ok := true;
      if info.tag.Some? && info.covered {
        TagInRange(t, p);
        CoveredAt(covered[..], info.tag.value);
        if covered[info.tag.value] {
          return false, 0;
        }
        CoverOne(covered[..], info.tag.value);
        ghost var flags := covered[..];
        covered[info.tag.value] := true;
        assert covered[..] == flags[info.tag.value := true];
        added := 1;
      }
    }

    /** Adds the facts of an arm that falls through to those of the arms before it. */
    method GatherPath(accumulated: array<Fact>, have: bool) returns (gathered: array<Fact>)
      requires have ==> accumulated.Length == |locals|
      modifies this`locals
      ensures Some(gathered[..]) == Gathered(if have then Some(accumulated[..]) else None, FactsOf(old(locals)), true)
      ensures gathered.Length == |locals| == |old(locals)| && Keeps(old(locals), locals)
      ensures fresh(gathered)
    {
      var caseAfter := Capture();
      gathered := caseAfter;
      if have {
        MergedFacts(locals, accumulated[..]);
        Merge(accumulated, caseAfter);
        gathered := Capture();
      }
    }

    /** Checks one arm from the facts before the match, and gathers the facts it ends with if it falls through. */
    method CheckArm(ghost start: Locals, before: array<Fact>, accumulated: array<Fact>, have: bool, c: Case, info: Info)
      returns (ok: bool, gathered: array<Fact>, falls: bool)
      requires Keeps(start, locals) && |locals| == |start| && before[..] == FactsOf(start)
      requires have ==> accumulated.Length == |start|
      modifies this
      ensures match CheckCase(c, info, start, old(scopeDepth), output)
              case Refused(e) => !ok && diagnostic == Some(e)
              case Accepted(after, through) =>
                && ok && Keeps(start, locals) && |locals| == |start|
                && (if falls then Some(gathered[..]) else None)
                   == Gathered(if have then Some(accumulated[..]) else None, FactsOf(after), through)
                && (falls ==> gathered.Length == |start|)
      ensures ok ==> scopeDepth == old(scopeDepth) && unsafeDepth == old(unsafeDepth)
      decreases c, 1
    {
      hide CheckCase, Keeps, Gathered, FactsOf, Restored;
      ghost var merged, depth := if have then Some(accumulated[..]) else None, scopeDepth;
      RestoredBack(start, locals);
      Restore(before);
      CaseKeeps(c, info, start, depth, output);
      gathered, falls := accumulated, have;
      ok := CheckMatchCase(c, info);
      if !ok {
        return;
      }
      GatheredIs(merged, FactsOf(locals), fallsThrough);
      if fallsThrough {
        ghost var after := locals;
        gathered := GatherPath(accumulated, have);
        falls := true;
        KeepsThrough(start, after, locals);
      }
    }

    /** Checks every case of a match and the coverage of its patterns. */
    method CheckMatch(t: Type, cases: seq<Case>) returns (ok: bool)
      modifies this
      ensures Gives(ok, CheckCases(t, cases, 0, Coverage(false, {}), None, old(locals), old(scopeDepth), output))
      ensures ok ==> scopeDepth == old(scopeDepth) && unsafeDepth == old(unsafeDepth)
      decreases cases, |cases|
    {
      hide AnalyzeNode, Analyze, CheckCase, CheckCases, Exhaustive, Reachable, Cover, CoveredSet, Keeps, Gathered,
           FactsOf, Restored, ConstructorCount;
      ghost var start, depth := locals, scopeDepth;
      ghost var verdict := CheckCases(t, cases, 0, Coverage(false, {}), None, start, depth, output);
      var constructorCount := ConstructorCount(t);
      var covered := new bool[constructorCount](_ => false);
      var fullyCoveredCount := 0;
      var coveredAll := false;
      var before := Capture();
      var accumulated := new Fact[0];
      var haveFallthroughPath := false;
      var index := 0;
      ghost var merged: Option<seq<Fact>> := None;
      ghost var coverage := Coverage(false, {});
      NothingCovered(covered[..]);
      KeepsItself(start);
      while index < |cases|
        invariant index <= |cases| && scopeDepth == depth && unsafeDepth == old(unsafeDepth)
        invariant Keeps(start, locals) && |locals| == |start| && before[..] == FactsOf(start)
        invariant covered.Length == constructorCount == ConstructorCount(t)
        invariant fresh(covered)
        invariant merged == if haveFallthroughPath then Some(accumulated[..]) else None
        invariant haveFallthroughPath ==> accumulated.Length == |start|
        invariant coverage == Coverage(coveredAll, CoveredSet(covered[..]))
        invariant fullyCoveredCount == |coverage.constructors|
        invariant verdict == CheckCases(t, cases, index, coverage, merged, start, depth, output)
        decreases |cases| - index
      {
        CasesUnfold(t, cases, index, coverage, merged, start, depth, output);
        if coveredAll {
          Fail(UnreachablePattern);
          return false;
        }
        var analysis := Analyze(t, cases[index].pattern);
        if analysis.None? {
          Fail(InvalidPattern);
          return false;
        }
        var info := analysis.value;
        var added;
        ok, added := RecordCoverage(t, cases[index].pattern, info, covered, coveredAll);
        if !ok {
          Fail(UnreachablePattern);
          return;
        }
        fullyCoveredCount := fullyCoveredCount + added;
        if info.irrefutable {
          coveredAll := true;
        }
        coverage := Cover(coverage, info);
        ok, accumulated, haveFallthroughPath :=
          CheckArm(start, before, accumulated, haveFallthroughPath, cases[index], info);
        if !ok {
          return;
        }
        merged := if haveFallthroughPath then Some(accumulated[..]) else None;
        index := index + 1;
      }
      CasesDone(t, cases, coverage, merged, start, depth, output);
      ExhaustiveIs(t, coverage);
      if !coveredAll && !(constructorCount != 0 && fullyCoveredCount == constructorCount) {
        Fail(NonExhaustivePattern);
        return false;
      }
      LeaveMatch(start, before, accumulated, haveFallthroughPath);
      ok := true;
    }

    /** After the last case: the facts where the arms that fell through meet. */
    method LeaveMatch(ghost start: Locals, before: array<Fact>, accumulated: array<Fact>, haveFallthroughPath: bool)
      requires Keeps(start, locals) && |locals| == |start| && before[..] == FactsOf(start)
      requires haveFallthroughPath ==> accumulated.Length == |start|
      modifies this`locals, this`fallsThrough
      ensures locals == (if haveFallthroughPath then Restored(start, accumulated[..]) else start)
      ensures fallsThrough == haveFallthroughPath
    {
      if haveFallthroughPath {
        RestoredSame(start, locals, accumulated[..]);
        Restore(accumulated);
      } else {
        RestoredBack(start, locals);
        Restore(before);
      }
      fallsThrough := haveFallthroughPath;
    }

    /** Declares what the pattern binds, checks the body, and drops the bindings again. */
    method CheckMatchCase(c: Case, info: Info) returns (ok: bool)
      modifies this
      ensures Gives(ok, CheckCase(c, info, old(locals), old(scopeDepth), output))
      ensures ok ==> scopeDepth == old(scopeDepth) && unsafeDepth == old(unsafeDepth)
      decreases c, 0
    {
      hide CheckBlock;
      var savedCount := |locals|;
      ghost var start := locals;
      for k := 0 to |info.bindings|
        invariant scopeDepth == old(scopeDepth) && unsafeDepth == old(unsafeDepth)
        invariant locals == start + BoundLocals(info.bindings, scopeDepth + 1)[..k]
      {
        var b := info.bindings[k];
        locals := locals + [CheckedLocal(b.name, b.t, false, Initialized, scopeDepth + 1)];
      }
      assert locals == start + BoundLocals(info.bindings, scopeDepth + 1);
      BlockKeeps(c.body, locals, scopeDepth, output);
      ok := CheckBlockFlow(c.body);
      if ok {
        locals := locals[..savedCount];
      }
    }

    /** Checks a whole function: parameters, body, and that a result is returned on every path. */
    method CheckFunctionBody(parameters: seq<Parameter>, body: seq<Stmt>) returns (ok: bool)
      requires locals == ParameterLocals(parameters) && scopeDepth == 0
      modifies this
      ensures match CheckFunction(parameters, body, output)
              case None => ok
              case Some(e) => !ok && diagnostic == Some(e)
    {
      hide CheckBlock;
      for i := 0 to |parameters|
        invariant forall k, l :: 0 <= k < l < i ==> parameters[k].name != parameters[l].name
      {
        for k := 0 to i
          invariant forall l :: 0 <= l < k ==> parameters[l].name != parameters[i].name
        {
          if parameters[k].name == parameters[i].name {
            assert !DistinctNames(parameters);
            Fail(DuplicateDeclaration);
            return false;
          }
        }
      }
      ok := CheckBlockFlow(body);
      if ok && fallsThrough && output.Some? {
        Fail(MissingReturnPath);
        ok := false;
      }
    }
  }

  // ----- coverage flags -----

  /** The constructors whose flag is set. */
  function CoveredSet(flags: seq<bool>): set<nat> {
    set k: nat | k < |flags| && flags[k]
  }

  lemma NothingCovered(flags: seq<bool>)
    requires forall k :: 0 <= k < |flags| ==> !flags[k]
    ensures CoveredSet(flags) == {}
  {
  }

  lemma CoveredAt(flags: seq<bool>, k: nat)
    requires k < |flags|
    ensures k in CoveredSet(flags) <==> flags[k]
  {
  }

  lemma CoverOne(flags: seq<bool>, k: nat)
    requires k < |flags| && !flags[k]
    ensures CoveredSet(flags[k := true]) == CoveredSet(flags) + {k}
    ensures |CoveredSet(flags[k := true])| == |CoveredSet(flags)| + 1
  {
    assert k !in CoveredSet(flags);
    assert CoveredSet(flags[k := true]) == CoveredSet(flags) + {k};
  }

  lemma KeepsItself(locals: Locals)
    ensures Keeps(locals, locals)
  {
  }

  lemma GatheredIs(merged: Option<seq<Fact>>, facts: seq<Fact>, falls: bool)
    ensures !falls ==> Gathered(merged, facts, falls) == merged
  {
  }

  lemma ExhaustiveIs(t: Type, c: Coverage)
    ensures Exhaustive(t, c) <==> c.all || (ConstructorCount(t) != 0 && |c.constructors| == ConstructorCount(t))
  {
  }

  lemma CasesUnfold(
    t: Type, cases: seq<Case>, i: nat, coverage: Coverage, merged: Option<seq<Fact>>, locals: Locals, depth: nat,
    output: Option<Type>)
    requires i < |cases|
    ensures CheckCases(t, cases, i, coverage, merged, locals, depth, output) ==
            if coverage.all then Refused(UnreachablePattern)
            else if Analyze(t, cases[i].pattern).None? then Refused(InvalidPattern)
            else
              var info := Analyze(t, cases[i].pattern).value;
              if !Reachable(coverage, info) then Refused(UnreachablePattern) else
              var a := CheckCase(cases[i], info, locals, depth, output);
              if a.Refused? then a
              else CheckCases(t, cases, i + 1, Cover(coverage, info), Gathered(merged, FactsOf(a.locals), a.falls),
                              locals, depth, output)
  {
    hide AnalyzeNode, CheckCase, Reachable, Cover;
  }

  lemma CasesDone(
    t: Type, cases: seq<Case>, coverage: Coverage, merged: Option<seq<Fact>>, locals: Locals, depth: nat,
    output: Option<Type>)
    ensures CheckCases(t, cases, |cases|, coverage, merged, locals, depth, output) ==
            if !Exhaustive(t, coverage) then Refused(NonExhaustivePattern)
            else Accepted(if merged.Some? then Restored(locals, merged.value) else locals, merged.Some?)
  {
    hide Exhaustive;
  }

  /** Merging into the table and capturing it again is merging the snapshots. */
  lemma MergedFacts(locals: Locals, a: seq<Fact>)
    requires |a| == |locals|
    ensures FactsOf(Merged(locals, a, FactsOf(locals))) == MergeFacts(a, FactsOf(locals))
  {
  }

  /** Restoring the facts captured at the start undoes every change since. */
  lemma RestoredBack(start: Locals, later: Locals)
    requires Keeps(start, later) && |later| == |start|
    ensures Restored(later, FactsOf(start)) == start
  {
  }

  lemma RestoredSame(start: Locals, later: Locals, facts: seq<Fact>)
    requires Keeps(start, later) && |later| == |start| == |facts|
    ensures Restored(later, facts) == Restored(start, facts)
  {
  }

  lemma MergedSame(start: Locals, later: Locals, facts: seq<Fact>)
    requires Keeps(start, later) && |later| == |start| == |facts|
    ensures Merged(later, facts, FactsOf(later)) == Merged(start, facts, FactsOf(later))
  {
  }
}
