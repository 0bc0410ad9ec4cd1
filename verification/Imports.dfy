/** The import graph of a set of source files: what loading a program has to find. */
module Imports {
  import opened Options

  /** What resolving one import of a file gives, by the path rules. */
  datatype Resolution = EscapesRoot | Missing | To(path: string, recognized: bool)

  datatype File = Unparsable | Module(imports: seq<Resolution>)

  /** The files that can be read, by canonical path, and the canonical form of every path that has one. */
  datatype World = World(files: map<string, File>, canonical: map<string, string>)

  datatype LoadError =
    | InternalError
    | InputFileNotFound
    | SyntaxError
    | ImportEscapesRoot
    | ModuleNotFound
    | UnrecognizedFileType
    | ImportCycle

  predicate IdempotentPaths(w: World) {
    forall p :: p in w.canonical ==> w.canonical[p] in w.canonical && w.canonical[w.canonical[p]] == w.canonical[p]
  }

  /** The canonical path an import leads to. */
  function Target(w: World, r: Resolution): Option<string> {
    if r.To? && r.recognized && r.path in w.canonical then Some(w.canonical[r.path]) else None
  }

  /** Why an import leads nowhere. */
  function ImportFault(w: World, r: Resolution): Option<LoadError> {
    match r
    case EscapesRoot => Some(ImportEscapesRoot)
    case Missing => Some(ModuleNotFound)
    case To(p, recognized) =>
      if !recognized then Some(UnrecognizedFileType) else if p !in w.canonical then Some(InternalError) else None
  }

  /** File `p` cannot be part of a program, for reason `e`. */
  predicate Faulty(w: World, p: string, e: LoadError) {
    if p !in w.files then e == InputFileNotFound
    else if w.files[p].Unparsable? then e == SyntaxError
    else exists i :: 0 <= i < |w.files[p].imports| && ImportFault(w, w.files[p].imports[i]) == Some(e)
  }

  predicate Edge(w: World, p: string, q: string) {
    p in w.files && w.files[p].Module? &&
    exists i :: 0 <= i < |w.files[p].imports| && Target(w, w.files[p].imports[i]) == Some(q)
  }

  predicate IsWalk(w: World, nodes: seq<string>) {
    nodes != [] && forall i :: 0 <= i < |nodes| - 1 ==> Edge(w, nodes[i], nodes[i + 1])
  }

  ghost predicate Reaches(w: World, p: string, q: string) {
    exists nodes :: IsWalk(w, nodes) && nodes[0] == p && nodes[|nodes| - 1] == q
  }

  predicate Repeats(nodes: seq<string>) {
    exists i, j :: 0 <= i < j < |nodes| && nodes[i] == nodes[j]
  }

  /** Some walk from `p` comes back to a file it has visited. */
  ghost predicate CycleFrom(w: World, p: string) {
    exists nodes :: IsWalk(w, nodes) && nodes[0] == p && Repeats(nodes)
  }

  lemma ReachesItself(w: World, p: string)
    ensures Reaches(w, p, p)
  {
    assert IsWalk(w, [p]);
  }

  lemma ReachesNext(w: World, p: string, q: string, r: string)
    requires Reaches(w, p, q) && Edge(w, q, r)
    ensures Reaches(w, p, r)
  {
    var nodes :| IsWalk(w, nodes) && nodes[0] == p && nodes[|nodes| - 1] == q;
    var longer := nodes + [r];
    assert IsWalk(w, longer);
    assert longer[0] == p && longer[|longer| - 1] == r;
  }

  /** Along a walk that starts in a closed set, everything stays inside and ranks fall. */
  lemma {:induction false} WalkStays(w: World, nodes: seq<string>, inside: set<string>, rank: map<string, nat>, j: nat)
    requires IsWalk(w, nodes) && nodes[0] in inside && j < |nodes|
    requires forall p :: p in inside ==> p in rank
    requires forall p, q :: p in inside && Edge(w, p, q) ==> q in inside && rank[q] < rank[p]
    ensures nodes[j] in inside && forall i :: 0 <= i < j ==> nodes[i] in inside && rank[nodes[j]] < rank[nodes[i]]
    decreases j
  {
    if j > 0 {
      WalkStays(w, nodes, inside, rank, j - 1);
      assert Edge(w, nodes[j - 1], nodes[j - 1 + 1]);
    }
  }

  /** A closed set on which ranks fall along every edge contains all that is reachable, and no cycle. */
  lemma RankedIsAcyclic(w: World, root: string, inside: set<string>, rank: map<string, nat>)
    requires root in inside && forall p :: p in inside ==> p in rank
    requires forall p, q :: p in inside && Edge(w, p, q) ==> q in inside && rank[q] < rank[p]
    ensures !CycleFrom(w, root)
    ensures forall q :: Reaches(w, root, q) ==> q in inside
  {
    forall nodes | IsWalk(w, nodes) && nodes[0] == root
      ensures !Repeats(nodes) && nodes[|nodes| - 1] in inside
    {
      WalkStays(w, nodes, inside, rank, |nodes| - 1);
      forall i, j | 0 <= i < j < |nodes|
        ensures nodes[i] != nodes[j]
      {
        WalkStays(w, nodes, inside, rank, j);
      }
    }
  }

  // ----- recorded edges -----

  /** The position of a path among distinct paths. */
  function Position(paths: seq<string>, p: string): (i: nat)
    requires p in paths
    ensures i < |paths| && paths[i] == p && forall k :: 0 <= k < i ==> paths[k] != p
  {
    if paths[0] == p then 0 else 1 + Position(paths[1..], p)
  }

  /** The positions of the first `k` imports, without repetition, in order of first mention. */
  function Edges(w: World, imports: seq<Resolution>, k: nat, paths: seq<string>): seq<nat>
    decreases k
  {
    if k == 0 || k > |imports| then []
    else
      var before := Edges(w, imports, k - 1, paths);
      match Target(w, imports[k - 1])
      case None => before
      case Some(q) =>
        if q !in paths then before
        else if Position(paths, q) in before then before
        else before + [Position(paths, q)]
  }

  lemma {:induction false} PositionStable(paths: seq<string>, more: seq<string>, p: string)
    requires p in paths
    ensures p in paths + more && Position(paths + more, p) == Position(paths, p)
    decreases paths
  {
    assert forall k :: 0 <= k < |paths| ==> (paths + more)[k] == paths[k];
    assert (paths + more)[Position(paths, p)] == p;
  }

  /** All of the first `k` imports lead to loaded files. */
  predicate TargetsIn(w: World, imports: seq<Resolution>, k: nat, paths: seq<string>) {
    forall i :: 0 <= i < k && i < |imports| ==> Target(w, imports[i]).Some? && Target(w, imports[i]).value in paths
  }

  /** Loading more files does not change edges already recorded. */
  lemma {:induction false} EdgesStable(w: World, imports: seq<Resolution>, k: nat, paths: seq<string>, more: seq<string>)
    requires k <= |imports| && TargetsIn(w, imports, k, paths)
    ensures Edges(w, imports, k, paths + more) == Edges(w, imports, k, paths) && TargetsIn(w, imports, k, paths + more)
    decreases k
  {
    if k > 0 {
      EdgesStable(w, imports, k - 1, paths, more);
      PositionStable(paths, more, Target(w, imports[k - 1]).value);
    }
    forall i | 0 <= i < k
      ensures Target(w, imports[i]).value in paths + more
    {
      PositionStable(paths, more, Target(w, imports[i]).value);
    }
  }

  predicate NoRepeat(es: seq<nat>) {
    forall a, b :: 0 <= a < b < |es| ==> es[a] != es[b]
  }

  /** Import `i` is recorded as an edge to position `e`. */
  predicate Records(w: World, imports: seq<Resolution>, i: nat, paths: seq<string>, e: nat) {
    i < |imports| && e < |paths| && Target(w, imports[i]) == Some(paths[e])
  }

  /** Every edge is one of the first `k` imports. */
  predicate OnlyImports(w: World, imports: seq<Resolution>, k: nat, paths: seq<string>, es: seq<nat>) {
    forall e :: e in es ==> exists i: nat :: i < k && Records(w, imports, i, paths, e)
  }

  /** Each of the first `k` imports is an edge. */
  predicate AllImports(w: World, imports: seq<Resolution>, k: nat, paths: seq<string>, es: seq<nat>) {
    forall i: nat :: i < k ==> Recorded(w, imports, i, paths, es)
  }

  predicate Recorded(w: World, imports: seq<Resolution>, i: nat, paths: seq<string>, es: seq<nat>) {
    exists e :: e in es && Records(w, imports, i, paths, e)
  }

  /** The recorded edges are the declared imports: each once, and exactly those. */
  lemma {:induction false} EdgesAreImports(w: World, imports: seq<Resolution>, k: nat, paths: seq<string>)
    requires k <= |imports| && TargetsIn(w, imports, k, paths)
    ensures var es := Edges(w, imports, k, paths);
            NoRepeat(es) && OnlyImports(w, imports, k, paths, es) && AllImports(w, imports, k, paths, es)
    decreases k
  {
    if k > 0 {
      EdgesAreImports(w, imports, k - 1, paths);
      var before := Edges(w, imports, k - 1, paths);
      var e := Position(paths, Target(w, imports[k - 1]).value);
      assert Records(w, imports, k - 1, paths, e);
      EdgeAdded(w, imports, k, paths, before, e);
    }
  }

  lemma EdgeAdded(w: World, imports: seq<Resolution>, k: nat, paths: seq<string>, before: seq<nat>, e: nat)
    requires 0 < k <= |imports| && Records(w, imports, k - 1, paths, e)
    requires NoRepeat(before) && OnlyImports(w, imports, k - 1, paths, before) && AllImports(w, imports, k - 1, paths, before)
    ensures var es := if e in before then before else before + [e];
            NoRepeat(es) && OnlyImports(w, imports, k, paths, es) && AllImports(w, imports, k, paths, es)
  {
    hide Records;
    var es := if e in before then before else before + [e];
    assert e in es;
    forall f | f in es
      ensures exists i: nat :: i < k && Records(w, imports, i, paths, f)
    {
      if f in before {
        var i: nat :| i < k - 1 && Records(w, imports, i, paths, f);
        assert i < k;
      }
    }
    forall i: nat | i < k
      ensures Recorded(w, imports, i, paths, es)
    {
      if i < k - 1 {
        assert Recorded(w, imports, i, paths, before);
        var f :| f in before && Records(w, imports, i, paths, f);
        assert f in es;
      }
    }
  }
}
