/**
 Loading a program: a recursive depth-first search over imports, with a loading flag on the units whose imports
 are still being followed.
 */
module ProgramLoader {
  import opened Options
  import opened Imports

  datatype Unit = Unit(path: string, index: nat, loading: bool, imported: seq<nat>)

  function Paths(units: seq<Unit>): (paths: seq<string>)
    ensures |paths| == |units|
    ensures forall i :: 0 <= i < |units| ==> paths[i] == units[i].path
  {
    seq(|units|, i requires 0 <= i < |units| => units[i].path)
  }

  /** The imports declared in a loaded file. */
  function Declared(w: World, p: string): seq<Resolution> {
    if p in w.files && w.files[p].Module? then w.files[p].imports else []
  }

  // ----- invariants of the search -----

  /** The units being loaded, outermost first, and the order in which the others were finished. */
  datatype Trace = Trace(stack: seq<nat>, rank: map<string, nat>, finished: nat)

  ghost predicate TableOk(w: World, units: seq<Unit>) {
    && (forall i :: 0 <= i < |units| ==> units[i].index == i)
    && (forall i, j :: 0 <= i < j < |units| ==> units[i].path != units[j].path)
    && (forall i :: 0 <= i < |units| ==> units[i].path in w.files && w.files[units[i].path].Module?)
  }

  /** The loading units are the stack, each importing the next, from the root. */
  ghost predicate StackOk(w: World, units: seq<Unit>, stack: seq<nat>) {
    && (forall k :: 0 <= k < |stack| ==> stack[k] < |units|)
    && (stack != [] ==> stack[0] == 0)
    && (forall k :: 0 <= k < |stack| - 1 ==> Edge(w, units[stack[k]].path, units[stack[k + 1]].path))
    && (forall j, k :: 0 <= j < k < |stack| ==> stack[j] != stack[k])
    && (forall i :: 0 <= i < |units| ==> (units[i].loading <==> i in stack))
  }

  ghost predicate RootReaches(w: World, units: seq<Unit>) {
    forall i :: 0 <= i < |units| ==> Reaches(w, units[0].path, units[i].path)
  }

  /** The first `k` imports lead to finished units, and are recorded. */
  ghost predicate Followed(w: World, units: seq<Unit>, trace: Trace, u: nat, k: nat) {
    u < |units| &&
    var imports := Declared(w, units[u].path);
    && k <= |imports| && TargetsIn(w, imports, k, Paths(units))
    && units[u].imported == Edges(w, imports, k, Paths(units))
    && forall i :: 0 <= i < k ==> ImportFault(w, imports[i]).None? && Target(w, imports[i]).value in trace.rank
  }

  /** A finished unit has followed all its imports, and they were finished before it. */
  ghost predicate UnitDone(w: World, units: seq<Unit>, trace: Trace, i: nat) {
    && i < |units| && units[i].path in trace.rank
    && Followed(w, units, trace, i, |Declared(w, units[i].path)|)
    && forall q :: Edge(w, units[i].path, q) ==> q in trace.rank && trace.rank[q] < trace.rank[units[i].path]
  }

  ghost predicate DoneOk(w: World, units: seq<Unit>, trace: Trace) {
    forall i :: 0 <= i < |units| && !units[i].loading ==> UnitDone(w, units, trace, i)
  }

  /** Ranks are given only to finished units. */
  ghost predicate RanksOk(units: seq<Unit>, trace: Trace) {
    forall p :: p in trace.rank ==>
      trace.rank[p] < trace.finished && exists i :: 0 <= i < |units| && units[i].path == p && !units[i].loading
  }

  ghost predicate Valid(w: World, units: seq<Unit>, trace: Trace) {
    && TableOk(w, units) && StackOk(w, units, trace.stack) && RootReaches(w, units)
    && DoneOk(w, units, trace) && RanksOk(units, trace)
  }

  /** A file may be loaded next if it is the root or the innermost loading unit imports it. */
  ghost predicate Wanted(w: World, units: seq<Unit>, trace: Trace, c: string) {
    if units == [] then trace.stack == []
    else
      trace.stack != [] && trace.stack[|trace.stack| - 1] < |units|
      && Edge(w, units[trace.stack[|trace.stack| - 1]].path, c)
  }

  /** Later states keep the units there were and add only finished ones. */
  ghost predicate Later(units: seq<Unit>, trace: Trace, later: seq<Unit>, after: Trace) {
    && units <= later && after.stack == trace.stack
    && (forall i :: |units| <= i < |later| ==> !later[i].loading)
    && (forall p :: p in trace.rank ==> p in after.rank)
  }

  lemma PathsPrefix(units: seq<Unit>, later: seq<Unit>)
    requires units <= later
    ensures Paths(later) == Paths(units) + Paths(later)[|units|..]
  {
  }

  /** Following is stable: more units and more ranks change nothing about it. */
  lemma FollowedLater(w: World, units: seq<Unit>, trace: Trace, u: nat, k: nat, later: seq<Unit>, after: Trace)
    requires Followed(w, units, trace, u, k) && u < |later| && later[u].path == units[u].path
    requires later[u].imported == units[u].imported && Paths(units) <= Paths(later)
    requires forall p :: p in trace.rank ==> p in after.rank
    ensures Followed(w, later, after, u, k)
  {
    var more := Paths(later)[|units|..];
    assert Paths(units) + more == Paths(later);
    EdgesStable(w, Declared(w, units[u].path), k, Paths(units), more);
  }

  // ----- what each step keeps -----

  lemma PushKeeps(w: World, units: seq<Unit>, trace: Trace, c: string)
    requires Valid(w, units, trace) && Wanted(w, units, trace, c)
    requires c !in Paths(units) && c in w.files && w.files[c].Module?
    ensures var next := units + [Unit(c, |units|, true, [])];
            Valid(w, next, trace.(stack := trace.stack + [|units|]))
            && Followed(w, next, trace.(stack := trace.stack + [|units|]), |units|, 0)
  {
    hide Edge, Reaches, Followed, UnitDone;
    var next := units + [Unit(c, |units|, true, [])];
    var after := trace.(stack := trace.stack + [|units|]);
    assert forall i :: 0 <= i < |units| ==> next[i] == units[i];
    assert TableOk(w, next) by { assert forall i :: 0 <= i < |units| ==> Paths(units)[i] == units[i].path; }
    PushReaches(w, units, trace, c);
    PushDone(w, units, trace, c);
    PushStack(w, units, trace, c);
    NothingFollowed(w, next, after, |units|);
    assert RanksOk(next, after) by {
      forall p | p in trace.rank
        ensures exists i :: 0 <= i < |next| && next[i].path == p && !next[i].loading
      {
        var i :| 0 <= i < |units| && units[i].path == p && !units[i].loading;
        assert next[i].path == p;
      }
    }
  }

  lemma PushStack(w: World, units: seq<Unit>, trace: Trace, c: string)
    requires StackOk(w, units, trace.stack) && Wanted(w, units, trace, c)
    ensures StackOk(w, units + [Unit(c, |units|, true, [])], trace.stack + [|units|])
  {
    hide Edge;
    var next, stack := units + [Unit(c, |units|, true, [])], trace.stack + [|units|];
    assert stack[|trace.stack|] == |units|;
    forall i | 0 <= i < |next|
      ensures next[i].loading <==> i in stack
    {
      if i < |units| {
        assert next[i] == units[i];
      }
    }
  }

  lemma NothingFollowed(w: World, units: seq<Unit>, trace: Trace, u: nat)
    requires u < |units| && units[u].imported == []
    ensures Followed(w, units, trace, u, 0)
  {
  }

  lemma PushReaches(w: World, units: seq<Unit>, trace: Trace, c: string)
    requires RootReaches(w, units) && Wanted(w, units, trace, c)
    ensures RootReaches(w, units + [Unit(c, |units|, true, [])])
  {
    hide Edge, Reaches;
    if units == [] {
      ReachesItself(w, c);
    } else {
      ReachesNext(w, units[0].path, units[trace.stack[|trace.stack| - 1]].path, c);
    }
  }

  lemma PushDone(w: World, units: seq<Unit>, trace: Trace, c: string)
    requires DoneOk(w, units, trace)
    ensures DoneOk(w, units + [Unit(c, |units|, true, [])], trace.(stack := trace.stack + [|units|]))
  {
    hide Followed;
    var next := units + [Unit(c, |units|, true, [])];
    PathsPrefix(units, next);
    forall i | 0 <= i < |next| && !next[i].loading
      ensures UnitDone(w, next, trace.(stack := trace.stack + [|units|]), i)
    {
      assert UnitDone(w, units, trace, i);
      FollowedLater(w, units, trace, i, |Declared(w, units[i].path)|, next, trace.(stack := trace.stack + [|units|]));
    }
  }

  /** Finishing the innermost unit gives it the next rank. */
  function Finished(units: seq<Unit>, u: nat): (r: seq<Unit>)
    requires u < |units|
    ensures |r| == |units| && Paths(r) == Paths(units)
  {
    var r := units[u := units[u].(loading := false)];
    assert Paths(r) == Paths(units);
    r
  }

  function FinishTrace(trace: Trace, p: string): Trace
    requires trace.stack != []
  {
    Trace(trace.stack[..|trace.stack| - 1], trace.rank[p := trace.finished], trace.finished + 1)
  }

  lemma FinishKeeps(w: World, units: seq<Unit>, trace: Trace, u: nat)
    requires Valid(w, units, trace) && trace.stack != [] && trace.stack[|trace.stack| - 1] == u && u < |units|
    requires Followed(w, units, trace, u, |Declared(w, units[u].path)|)
    ensures Valid(w, Finished(units, u), FinishTrace(trace, units[u].path))
    ensures units[u].path !in trace.rank
  {
    hide Edge, Reaches, Followed, UnitDone;
    var next, after := Finished(units, u), FinishTrace(trace, units[u].path);
    FinishStack(w, units, trace, u);
    FinishDone(w, units, trace, u);
    assert forall i :: 0 <= i < |units| && i != u ==> next[i] == units[i];
    assert RanksOk(next, after) by {
      forall p | p in after.rank
        ensures after.rank[p] < after.finished && exists i :: 0 <= i < |next| && next[i].path == p && !next[i].loading
      {
        if p == units[u].path {
          assert next[u].path == p && !next[u].loading;
        } else {
          var i :| 0 <= i < |units| && units[i].path == p && !units[i].loading;
          assert next[i] == units[i];
        }
      }
    }
  }

  lemma FinishStack(w: World, units: seq<Unit>, trace: Trace, u: nat)
    requires StackOk(w, units, trace.stack) && trace.stack != [] && trace.stack[|trace.stack| - 1] == u && u < |units|
    ensures StackOk(w, Finished(units, u), trace.stack[..|trace.stack| - 1])
    ensures units[u].loading
  {
    hide Edge;
    var next, stack := Finished(units, u), trace.stack[..|trace.stack| - 1];
    forall i | 0 <= i < |next|
      ensures next[i].loading <==> i in stack
    {
      if i == u {
        assert forall k :: 0 <= k < |stack| ==> stack[k] == trace.stack[k] != u;
      } else {
        assert next[i] == units[i];
        if i in trace.stack {
          var k :| 0 <= k < |trace.stack| && trace.stack[k] == i;
          assert stack[k] == i;
        }
      }
    }
  }

  lemma FinishDone(w: World, units: seq<Unit>, trace: Trace, u: nat)
    requires TableOk(w, units) && DoneOk(w, units, trace) && RanksOk(units, trace)
    requires u < |units| && units[u].loading && trace.stack != []
    requires Followed(w, units, trace, u, |Declared(w, units[u].path)|)
    ensures units[u].path !in trace.rank
    ensures DoneOk(w, Finished(units, u), FinishTrace(trace, units[u].path))
  {
    hide Followed;
    var next, after := Finished(units, u), FinishTrace(trace, units[u].path);
    assert units[u].path !in trace.rank;
    forall i | 0 <= i < |next| && !next[i].loading
      ensures UnitDone(w, next, after, i)
    {
      if i != u {
        assert next[i] == units[i];
        assert UnitDone(w, units, trace, i);
        RanksKept(w, units, trace, i, u);
      } else {
        FollowedEdges(w, units, trace, u);
      }
      FollowedLater(w, units, trace, i, |Declared(w, units[i].path)|, next, after);
    }
  }

  lemma RanksKept(w: World, units: seq<Unit>, trace: Trace, i: nat, u: nat)
    requires UnitDone(w, units, trace, i) && u < |units| && units[u].path !in trace.rank && trace.stack != []
    ensures var after := FinishTrace(trace, units[u].path);
            forall q :: Edge(w, units[i].path, q) ==> q in after.rank && after.rank[q] < after.rank[units[i].path]
  {
    hide Edge, Followed;
  }

  /** A unit that followed all its imports has only finished ones behind its edges. */
  lemma FollowedEdges(w: World, units: seq<Unit>, trace: Trace, u: nat)
    requires u < |units| && Followed(w, units, trace, u, |Declared(w, units[u].path)|) && RanksOk(units, trace)
    requires units[u].path !in trace.rank
    ensures forall q :: Edge(w, units[u].path, q) ==> q in trace.rank && trace.rank[q] < trace.finished
  {
  }

  /** Records an edge once. */
  function WithEdge(units: seq<Unit>, u: nat, e: nat): (r: seq<Unit>)
    requires u < |units|
    ensures |r| == |units| && Paths(r) == Paths(units)
  {
    var r := if e in units[u].imported then units else units[u := units[u].(imported := units[u].imported + [e])];
    assert Paths(r) == Paths(units);
    r
  }

  lemma RecordKeeps(w: World, units: seq<Unit>, trace: Trace, u: nat, k: nat, e: nat)
    requires Valid(w, units, trace) && u < |units| && units[u].loading && Followed(w, units, trace, u, k)
    requires k < |Declared(w, units[u].path)| && e < |units|
    requires var r := Declared(w, units[u].path)[k];
             ImportFault(w, r).None? && Target(w, r) == Some(units[e].path) && units[e].path in trace.rank
    ensures Valid(w, WithEdge(units, u, e), trace) && Followed(w, WithEdge(units, u, e), trace, u, k + 1)
  {
    hide TableOk, StackOk, RootReaches, DoneOk, RanksOk, Followed, WithEdge, ImportFault, Target;
    RecordKeepsTable(w, units, trace, u, e);
    PositionOf(units, e, w);
    RecordFollows(w, units, trace, u, k, e);
    RecordKeepsDone(w, units, trace, u, e);
    RecordKeepsRanks(units, trace, u, e);
  }

  /** Recording an edge changes one unit's import list and nothing else. */
  lemma RecordSame(units: seq<Unit>, u: nat, e: nat)
    requires u < |units|
    ensures var next := WithEdge(units, u, e);
            && |next| == |units|
            && (forall i :: 0 <= i < |units| ==>
                  && next[i].path == units[i].path
                  && next[i].index == units[i].index
                  && next[i].loading == units[i].loading)
            && (forall i :: 0 <= i < |units| && i != u ==> next[i] == units[i])
  {
  }

  lemma RecordFollows(w: World, units: seq<Unit>, trace: Trace, u: nat, k: nat, e: nat)
    requires Followed(w, units, trace, u, k) && k < |Declared(w, units[u].path)| && e < |units|
    requires var r := Declared(w, units[u].path)[k];
             ImportFault(w, r).None? && Target(w, r) == Some(units[e].path) && units[e].path in trace.rank
    requires units[e].path in Paths(units) && Position(Paths(units), units[e].path) == e
    ensures Followed(w, WithEdge(units, u, e), trace, u, k + 1)
  {
    hide Position, ImportFault, Target, Declared;
  }

  lemma RecordKeepsTable(w: World, units: seq<Unit>, trace: Trace, u: nat, e: nat)
    requires u < |units| && TableOk(w, units) && StackOk(w, units, trace.stack) && RootReaches(w, units)
    ensures var next := WithEdge(units, u, e);
            TableOk(w, next) && StackOk(w, next, trace.stack) && RootReaches(w, next)
  {
    hide Edge, Reaches, WithEdge;
    RecordSame(units, u, e);
  }

  lemma RecordKeepsDone(w: World, units: seq<Unit>, trace: Trace, u: nat, e: nat)
    requires u < |units| && units[u].loading && DoneOk(w, units, trace)
    ensures DoneOk(w, WithEdge(units, u, e), trace)
  {
    hide UnitDone, WithEdge;
    var next := WithEdge(units, u, e);
    RecordSame(units, u, e);
    forall i | 0 <= i < |next| && !next[i].loading
      ensures UnitDone(w, next, trace, i)
    {
      assert UnitDone(w, units, trace, i);
      RecordDone(w, units, trace, u, e, i);
    }
  }

  lemma RecordKeepsRanks(units: seq<Unit>, trace: Trace, u: nat, e: nat)
    requires u < |units| && RanksOk(units, trace)
    ensures RanksOk(WithEdge(units, u, e), trace)
  {
    hide WithEdge;
    var next := WithEdge(units, u, e);
    RecordSame(units, u, e);
    forall p | p in trace.rank
      ensures exists i :: 0 <= i < |next| && next[i].path == p && !next[i].loading
    {
      var i :| 0 <= i < |units| && units[i].path == p && !units[i].loading;
      assert next[i].path == p;
    }
  }

  lemma RecordDone(w: World, units: seq<Unit>, trace: Trace, u: nat, e: nat, i: nat)
    requires u < |units| && i != u && UnitDone(w, units, trace, i)
    ensures UnitDone(w, WithEdge(units, u, e), trace, i)
  {
    hide Edge, Edges;
    RecordSame(units, u, e);
  }

  lemma PositionOf(units: seq<Unit>, e: nat, w: World)
    requires TableOk(w, units) && e < |units|
    ensures units[e].path in Paths(units) && Position(Paths(units), units[e].path) == e
  {
    assert Paths(units)[e] == units[e].path;
    var i := Position(Paths(units), units[e].path);
    assert units[i].path == units[e].path;
  }

  /** An import of a unit that is still loading closes a cycle that starts at the root. */
  lemma LoadingImportIsCycle(w: World, units: seq<Unit>, trace: Trace, u: nat, j: nat)
    requires StackOk(w, units, trace.stack) && trace.stack != [] && trace.stack[|trace.stack| - 1] == u && u < |units|
    requires j < |units| && units[j].loading && Edge(w, units[u].path, units[j].path)
    ensures CycleFrom(w, units[0].path)
  {
    hide Edge;
    var stack := trace.stack;
    var s :| 0 <= s < |stack| && stack[s] == j;
    var nodes := seq(|stack|, k requires 0 <= k < |stack| => units[stack[k]].path) + [units[j].path];
    forall k | 0 <= k < |nodes| - 1
      ensures Edge(w, nodes[k], nodes[k + 1])
    {
      if k + 1 < |stack| {
        assert Edge(w, units[stack[k]].path, units[stack[k + 1]].path);
      }
    }
    assert IsWalk(w, nodes);
    assert nodes[s] == nodes[|stack|];
  }

  // ----- results -----

  /** Why loading stopped: a reachable cycle, or a reachable file that is at fault. */
  ghost predicate Justified(w: World, root: string, e: LoadError) {
    if e == ImportCycle then CycleFrom(w, root) else exists p :: Reaches(w, root, p) && Faulty(w, p, e)
  }

  /**
   A loaded program: exactly the files reachable from the root, each once and at the position its index says, the
   root first, none still loading, each with its declared imports as duplicate-free edges, and no cycle.
   */
  ghost predicate LoadedExactly(w: World, root: string, units: seq<Unit>) {
    && units != [] && units[0].path == root
    && (forall i, j :: 0 <= i < j < |units| ==> units[i].path != units[j].path)
    && (forall i :: 0 <= i < |units| ==> units[i].index == i && !units[i].loading)
    && (forall p :: p in Paths(units) <==> Reaches(w, root, p))
    && (forall i :: 0 <= i < |units| ==> ImportsRecorded(w, units, i))
    && !CycleFrom(w, root)
    && Faultless(w, root)
  }

  ghost predicate ImportsRecorded(w: World, units: seq<Unit>, i: nat)
    requires i < |units|
  {
    var imports, es := Declared(w, units[i].path), units[i].imported;
    NoRepeat(es) && OnlyImports(w, imports, |imports|, Paths(units), es) && AllImports(w, imports, |imports|, Paths(units), es)
  }

  /** In a finished table, edges stay inside it and lead to lower ranks. */
  lemma InsideClosed(w: World, units: seq<Unit>, trace: Trace, i: nat)
    requires Valid(w, units, trace) && trace.stack == [] && i < |units|
    ensures units[i].path in trace.rank && Reaches(w, units[0].path, units[i].path) && ImportsRecorded(w, units, i)
    ensures forall q :: Edge(w, units[i].path, q) ==>
              q in Paths(units) && q in trace.rank && trace.rank[q] < trace.rank[units[i].path]
    ensures forall e :: !Faulty(w, units[i].path, e)
  {
    hide Edge, Reaches, Followed, Faulty, ImportsRecorded;
    assert UnitDone(w, units, trace, i);
    forall q | Edge(w, units[i].path, q)
      ensures q in Paths(units)
    {
      var j :| 0 <= j < |units| && units[j].path == q && !units[j].loading;
      assert Paths(units)[j] == q;
    }
    DoneIsFaultless(w, units, trace, i);
    FollowedRecords(w, units, trace, i);
  }

  lemma FinishedIsLoaded(w: World, units: seq<Unit>, trace: Trace)
    requires Valid(w, units, trace) && trace.stack == [] && units != []
    ensures LoadedExactly(w, units[0].path, units)
  {
    hide Edge, Reaches, CycleFrom, Faulty, ImportsRecorded, DoneOk, RanksOk, RootReaches;
    var root, paths := units[0].path, Paths(units);
    var inside := set p | p in paths;
    assert paths[0] == root;
    forall i | 0 <= i < |units|
      ensures ImportsRecorded(w, units, i)
    {
      InsideClosed(w, units, trace, i);
    }
    forall p | p in inside
      ensures p in trace.rank && Reaches(w, root, p)
              && (forall q :: Edge(w, p, q) ==> q in inside && q in trace.rank && trace.rank[q] < trace.rank[p])
              && (forall e :: !Faulty(w, p, e))
    {
      var i :| 0 <= i < |paths| && paths[i] == p;
      InsideClosed(w, units, trace, i);
    }
    RankedIsAcyclic(w, root, inside, trace.rank);
  }

  lemma DoneIsFaultless(w: World, units: seq<Unit>, trace: Trace, i: nat)
    requires TableOk(w, units) && i < |units| && Followed(w, units, trace, i, |Declared(w, units[i].path)|)
    ensures forall e :: !Faulty(w, units[i].path, e)
  {
  }

  lemma FollowedRecords(w: World, units: seq<Unit>, trace: Trace, i: nat)
    requires i < |units| && Followed(w, units, trace, i, |Declared(w, units[i].path)|)
    ensures ImportsRecorded(w, units, i)
  {
    EdgesAreImports(w, Declared(w, units[i].path), |Declared(w, units[i].path)|, Paths(units));
  }

  /** Every reachable file loads and parses, and all its imports resolve. */
  ghost predicate Faultless(w: World, root: string) {
    forall p, e :: Reaches(w, root, p) ==> !Faulty(w, p, e)
  }

  /** When no reachable file is at fault, the only reason to stop is a cycle. */
  lemma FaultlessMeansCycle(w: World, root: string, e: LoadError)
    requires Justified(w, root, e) && Faultless(w, root)
    ensures e == ImportCycle && CycleFrom(w, root)
  {
  }

  // ----- the loader -----

  class Program {
    const world: World
    var units: seq<Unit>
    var diagnostic: Option<LoadError>
    ghost var trace: Trace

    constructor (w: World)
      ensures world == w && units == [] && trace == Trace([], map[], 0) && diagnostic.None?
    {
      world := w;
      units := [];
      diagnostic := None;
      trace := Trace([], map[], 0);
    }

    method FindPathIndex(p: string) returns (r: Option<nat>)
      ensures r.Some? ==> r.value < |units| && units[r.value].path == p
      ensures r.None? <==> p !in Paths(units)
    {
      for i := 0 to |units|
        invariant forall k :: 0 <= k < i ==> units[k].path != p
      {
        if units[i].path == p {
          assert Paths(units)[i] == p;
          return Some(i);
        }
      }
      return None;
    }

    method HasImportIndex(u: nat, imported: nat) returns (found: bool)
      requires u < |units|
      ensures found <==> imported in units[u].imported
    {
      for i := 0 to |units[u].imported|
        invariant imported !in units[u].imported[..i]
      {
        if units[u].imported[i] == imported {
          return true;
        }
      }
      return false;
    }

    method Fail(e: LoadError)
      modifies this`diagnostic
      ensures diagnostic == Some(e)
    {
      diagnostic := Some(e);
    }

    /** The files that are not loaded yet; every unit pushed makes them fewer. */
    ghost function Unloaded(): set<string>
      reads this
    {
      world.files.Keys - set p | p in Paths(units)
    }

    /** The first unit is the root of the program. */
    ghost function Root(c: string): string
      reads this
    {
      if units == [] then c else units[0].path
    }

    /** Loads a file and, depth first, everything it imports. */
    method LoadFile(path: string) returns (ok: bool)
      requires Valid(world, units, trace) && IdempotentPaths(world)
      requires path in world.canonical && world.canonical[path] !in Paths(units) ==>
                 Wanted(world, units, trace, world.canonical[path])
      modifies this
      ensures path !in world.canonical ==> !ok && diagnostic == Some(InternalError)
      ensures ok ==> Valid(world, units, trace) && Later(old(units), old(trace), units, trace)
      ensures ok ==> world.canonical[path] in Paths(units)
      ensures ok && world.canonical[path] !in Paths(old(units)) ==> world.canonical[path] in trace.rank
      ensures ok && old(units) == [] ==> units != [] && units[0].path == world.canonical[path]
      ensures !ok && path in world.canonical ==>
                diagnostic.Some? && Justified(world, old(Root(world.canonical[path])), diagnostic.value)
      decreases Unloaded(), 0
    {
      hide Edge, Reaches, Followed, Valid, Faulty, CycleFrom;
      if path !in world.canonical {
        Fail(InternalError);
        return false;
      }
      var c := world.canonical[path];
      var known := FindPathIndex(c);
      if known.Some? {
        return true;
      }
      WantedReaches(world, units, trace, c);
      if c !in world.files {
        Fail(InputFileNotFound);
        NotLoadable(world, Root(c), c);
        return false;
      }
      if world.files[c].Unparsable? {
        Fail(SyntaxError);
        NotLoadable(world, Root(c), c);
        return false;
      }
      PushKeeps(world, units, trace, c);
      ghost var root, unloaded, before, start := Root(c), Unloaded(), units, trace;
      assert c in unloaded;
      var u := |units|;
      units := units + [Unit(c, u, true, [])];
      trace := trace.(stack := trace.stack + [u]);
      assert Paths(units) == Paths(before) + [c];
      assert Paths(units)[u] == c;
      assert Unloaded() < unloaded;
      ok := FollowImports(u, root);
      if !ok {
        return;
      }
      FinishKeeps(world, units, trace, u);
      FinishLater(before, start, units, trace, u);
      ghost var loaded := units;
      units := units[u := units[u].(loading := false)];
      assert units == Finished(loaded, u);
      trace := FinishTrace(trace, c);
    }

    /** Follows the imports of the innermost loading unit, one after the other. */
    method FollowImports(u: nat, ghost root: string) returns (ok: bool)
      requires Valid(world, units, trace) && IdempotentPaths(world)
      requires u < |units| && trace.stack != [] && trace.stack[|trace.stack| - 1] == u && units[0].path == root
      requires Followed(world, units, trace, u, 0)
      modifies this
      ensures ok ==> Valid(world, units, trace) && Continues(old(units), old(trace), u, units, trace)
      ensures ok ==> Followed(world, units, trace, u, |Declared(world, units[u].path)|)
      ensures !ok ==> diagnostic.Some? && Justified(world, root, diagnostic.value)
      decreases Unloaded(), 3
    {
      hide Edge, Reaches, Followed, Faulty, CycleFrom, Valid, Continues;
      var imports := Declared(world, units[u].path);
      ghost var before, start, unloaded := units, trace, Unloaded();
      ContinuesHere(before, start, u);
      for k := 0 to |imports|
        invariant Valid(world, units, trace) && Continues(before, start, u, units, trace)
        invariant u < |units| && Declared(world, units[u].path) == imports
        invariant Followed(world, units, trace, u, k)
        invariant Unloaded() <= unloaded
      {
        ok := FollowImport(u, k, imports[k], root, before, start);
        if !ok {
          return;
        }
      }
      ok := true;
    }

    /** Follows one import of the innermost loading unit and records it. */
    method FollowImport(u: nat, k: nat, r: Resolution, ghost root: string, ghost before: seq<Unit>, ghost start: Trace)
      returns (ok: bool)
      requires Valid(world, units, trace) && IdempotentPaths(world)
      requires u < |units| && Continues(before, start, u, units, trace)
      requires start.stack != [] && start.stack[|start.stack| - 1] == u && before != [] && before[0].path == root
      requires k < |Declared(world, units[u].path)| && r == Declared(world, units[u].path)[k]
      requires Followed(world, units, trace, u, k)
      modifies this
      ensures ok ==> Valid(world, units, trace) && Continues(before, start, u, units, trace) && u < |units|
      ensures ok ==> units[u].path == old(units)[u].path && Followed(world, units, trace, u, k + 1)
      ensures ok ==> Unloaded() <= old(Unloaded())
      ensures !ok ==> diagnostic.Some? && Justified(world, root, diagnostic.value)
      decreases Unloaded(), 2
    {
      hide Edge, Reaches, Followed, Faulty, CycleFrom, Valid, Justified, Continues, Later, TargetsIn;
      ContinuesFacts(before, start, u, units, trace);
      var fault := ImportFault(world, r);
      if fault.Some? {
        ImportAtFault(world, before, units, trace, u, k);
        Fail(fault.value);
        return false;
      }
      var c := Target(world, r).value;
      ImportIsEdge(world, units, trace, u, k);
      ghost var units1, trace1 := units, trace;
      var e := FindOrLoad(u, c, root);
      if e.None? {
        return false;
      }
      LaterFacts(units1, trace1, units, trace);
      PathsPrefix(units1, units);
      FollowedLater(world, units1, trace1, u, k, units, trace);
      ContinuesLater(before, start, u, units1, trace1, units, trace);
      ghost var units2 := units;
      StillLoading(world, units, trace, u);
      RecordKeeps(world, units, trace, u, k, e.value);
      RecordImport(u, e.value);
      ContinuesRecorded(before, start, u, units2, trace, e.value);
      ok := true;
    }

    /** The position of an imported file: a new one is loaded, a loading one closes a cycle. */
    method FindOrLoad(u: nat, c: string, ghost root: string) returns (r: Option<nat>)
      requires Valid(world, units, trace) && IdempotentPaths(world) && c in world.canonical && world.canonical[c] == c
      requires u < |units| && trace.stack != [] && trace.stack[|trace.stack| - 1] == u && units[0].path == root
      requires Edge(world, units[u].path, c)
      modifies this
      ensures r.Some? ==> Valid(world, units, trace) && Later(old(units), old(trace), units, trace)
      ensures r.Some? ==> r.value < |units| && units[r.value].path == c && c in trace.rank
      ensures r.Some? ==> Unloaded() <= old(Unloaded())
      ensures r.None? ==> diagnostic.Some? && Justified(world, root, diagnostic.value)
      decreases Unloaded(), 1
    {
      hide Edge, Reaches, Faulty, CycleFrom, Valid, Justified;
      r := FindPathIndex(c);
      if r.Some? {
        if units[r.value].loading {
          CycleJustified(world, units, units, trace, u, r.value);
          Fail(ImportCycle);
          return None;
        }
        LoadedIsRanked(world, units, trace, r.value);
        return;
      }
      ghost var before := units;
      var ok := LoadFile(c);
      if !ok {
        return None;
      }
      PathsPrefix(before, units);
      r := FindPathIndex(c);
    }

    method RecordImport(u: nat, e: nat)
      requires u < |units|
      modifies this`units
      ensures units == WithEdge(old(units), u, e)
    {
      var has := HasImportIndex(u, e);
      if !has {
        units := units[u := units[u].(imported := units[u].imported + [e])];
      }
    }

    /** Loads the whole program from its root file. */
    method LoadRoot(path: string) returns (ok: bool)
      requires IdempotentPaths(world) && units == [] && trace == Trace([], map[], 0)
      modifies this
      ensures path !in world.canonical ==> !ok && diagnostic == Some(InternalError)
      ensures ok ==> path in world.canonical && LoadedExactly(world, world.canonical[path], units)
      ensures !ok && path in world.canonical ==>
                diagnostic.Some? && Justified(world, world.canonical[path], diagnostic.value)
      ensures path in world.canonical && Faultless(world, world.canonical[path]) ==>
                && (ok <==> !CycleFrom(world, world.canonical[path]))
                && (!ok ==> diagnostic == Some(ImportCycle))
    {
      hide Edge, Reaches, CycleFrom, Faulty;
      ok := LoadFile(path);
      if ok {
        FinishedIsLoaded(world, units, trace);
      } else if path in world.canonical && Faultless(world, world.canonical[path]) {
        FaultlessMeansCycle(world, world.canonical[path], diagnostic.value);
      }
    }
  }

  /** While the imports of unit `u` are followed: it alone of the older units changes, and only in its edges. */
  ghost predicate Continues(units: seq<Unit>, trace: Trace, u: nat, later: seq<Unit>, after: Trace) {
    && u < |units| <= |later| && after.stack == trace.stack
    && (forall i :: 0 <= i < |units| && i != u ==> later[i] == units[i])
    && later[u].path == units[u].path && later[u].index == units[u].index && later[u].loading == units[u].loading
    && (forall i :: |units| <= i < |later| ==> !later[i].loading)
    && (forall p :: p in trace.rank ==> p in after.rank)
  }

  lemma ContinuesHere(units: seq<Unit>, trace: Trace, u: nat)
    requires u < |units|
    ensures Continues(units, trace, u, units, trace)
  {
  }

  lemma WantedReaches(w: World, units: seq<Unit>, trace: Trace, c: string)
    requires Valid(w, units, trace) && Wanted(w, units, trace, c)
    ensures Reaches(w, if units == [] then c else units[0].path, c)
  {
    hide Edge, Reaches;
    if units == [] {
      ReachesItself(w, c);
    } else {
      ReachesNext(w, units[0].path, units[trace.stack[|trace.stack| - 1]].path, c);
    }
  }

  lemma NotLoadable(w: World, root: string, c: string)
    requires Reaches(w, root, c) && (c !in w.files || w.files[c].Unparsable?)
    ensures Justified(w, root, if c !in w.files then InputFileNotFound else SyntaxError)
  {
    hide Reaches;
    assert Faulty(w, c, if c !in w.files then InputFileNotFound else SyntaxError);
  }

  lemma ContinuesFacts(before: seq<Unit>, start: Trace, u: nat, units: seq<Unit>, trace: Trace)
    requires Continues(before, start, u, units, trace)
    ensures trace.stack == start.stack && before[0].path == units[0].path && u < |units| && |before| <= |units|
  {
  }

  lemma LaterFacts(units: seq<Unit>, trace: Trace, later: seq<Unit>, after: Trace)
    requires Later(units, trace, later, after)
    ensures units <= later && after.stack == trace.stack && forall p :: p in trace.rank ==> p in after.rank
  {
  }

  lemma ContinuesRecorded(before: seq<Unit>, start: Trace, u: nat, units: seq<Unit>, trace: Trace, e: nat)
    requires Continues(before, start, u, units, trace)
    ensures Continues(before, start, u, WithEdge(units, u, e), trace)
  {
  }

  lemma ContinuesLater(
    before: seq<Unit>, start: Trace, u: nat, units: seq<Unit>, trace: Trace, later: seq<Unit>, after: Trace)
    requires Continues(before, start, u, units, trace) && Later(units, trace, later, after)
    ensures Continues(before, start, u, later, after)
  {
  }

  lemma ImportAtFault(w: World, before: seq<Unit>, units: seq<Unit>, trace: Trace, u: nat, k: nat)
    requires Valid(w, units, trace) && u < |units| && k < |Declared(w, units[u].path)|
    requires ImportFault(w, Declared(w, units[u].path)[k]).Some?
    requires before != [] && units != [] && before[0].path == units[0].path
    ensures Justified(w, before[0].path, ImportFault(w, Declared(w, units[u].path)[k]).value)
  {
    hide Reaches;
    assert Faulty(w, units[u].path, ImportFault(w, Declared(w, units[u].path)[k]).value);
  }

  lemma ImportIsEdge(w: World, units: seq<Unit>, trace: Trace, u: nat, k: nat)
    requires u < |units| && k < |Declared(w, units[u].path)|
    requires ImportFault(w, Declared(w, units[u].path)[k]).None?
    ensures Target(w, Declared(w, units[u].path)[k]).Some?
    ensures Edge(w, units[u].path, Target(w, Declared(w, units[u].path)[k]).value)
  {
  }

  lemma CycleJustified(w: World, before: seq<Unit>, units: seq<Unit>, trace: Trace, u: nat, j: nat)
    requires Valid(w, units, trace) && trace.stack != [] && trace.stack[|trace.stack| - 1] == u && u < |units|
    requires j < |units| && units[j].loading && Edge(w, units[u].path, units[j].path)
    requires before != [] && before[0].path == units[0].path
    ensures Justified(w, before[0].path, ImportCycle)
  {
    hide CycleFrom, Edge, Reaches;
    LoadingImportIsCycle(w, units, trace, u, j);
  }

  lemma LoadedIsRanked(w: World, units: seq<Unit>, trace: Trace, i: nat)
    requires Valid(w, units, trace) && i < |units| && !units[i].loading
    ensures units[i].path in trace.rank
  {
    assert UnitDone(w, units, trace, i);
  }

  lemma StillLoading(w: World, units: seq<Unit>, trace: Trace, u: nat)
    requires Valid(w, units, trace) && trace.stack != [] && trace.stack[|trace.stack| - 1] == u && u < |units|
    ensures units[u].loading
  {
  }

  /** After the unit just pushed is finished, nothing older has changed. */
  lemma FinishLater(before: seq<Unit>, start: Trace, units: seq<Unit>, trace: Trace, u: nat)
    requires u == |before| < |units|
    requires Continues(before + [Unit(units[u].path, u, true, [])], start.(stack := start.stack + [u]), u, units, trace)
    ensures Later(before, start, Finished(units, u), FinishTrace(trace, units[u].path))
  {
  }
}
