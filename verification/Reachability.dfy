/** The emission worklist: only the functions reachable from the entry are emitted, each once. */
module Reachability {

  /** A declared function: whether it is defined elsewhere, and the functions its body calls or takes as values. */
  datatype Function = Function(external: bool, uses: seq<nat>)

  /** Every use names a declared function. */
  predicate Declared(fs: seq<Function>) {
    forall f, k :: 0 <= f < |fs| && 0 <= k < |fs[f].uses| ==> fs[f].uses[k] < |fs|
  }

  /** Emitting `f` refers to `g`; an external function has no body to emit. */
  predicate Uses(fs: seq<Function>, f: nat, g: nat) {
    f < |fs| && !fs[f].external && g in fs[f].uses
  }

  predicate IsChain(fs: seq<Function>, chain: seq<nat>) {
    chain != [] && forall i :: 0 <= i < |chain| - 1 ==> Uses(fs, chain[i], chain[i + 1])
  }

  ghost predicate Reaches(fs: seq<Function>, f: nat, g: nat) {
    exists chain :: IsChain(fs, chain) && chain[0] == f && chain[|chain| - 1] == g
  }

  lemma ReachesSelf(fs: seq<Function>, f: nat)
    ensures Reaches(fs, f, f)
  {
    assert IsChain(fs, [f]);
  }

  lemma ReachesUse(fs: seq<Function>, f: nat, g: nat, h: nat)
    requires Reaches(fs, f, g) && Uses(fs, g, h)
    ensures Reaches(fs, f, h)
  {
    var chain :| IsChain(fs, chain) && chain[0] == f && chain[|chain| - 1] == g;
    var longer := chain + [h];
    assert IsChain(fs, longer);
    assert longer[0] == f && longer[|longer| - 1] == h;
  }

  /** A set closed under use contains everything reachable from its members. */
  lemma {:induction false} ClosedContains(fs: seq<Function>, inside: set<nat>, chain: seq<nat>, i: nat)
    requires IsChain(fs, chain) && chain[0] in inside && i < |chain|
    requires forall f, g :: f in inside && Uses(fs, f, g) ==> g in inside
    ensures chain[i] in inside
    decreases i
  {
    if i > 0 {
      ClosedContains(fs, inside, chain, i - 1);
      assert Uses(fs, chain[i - 1], chain[i - 1 + 1]);
    }
  }

  predicate Distinct(list: seq<nat>) {
    forall i, j :: 0 <= i < j < |list| ==> list[i] != list[j]
  }

  /** Distinct numbers below `n` are at most `n`; so the table cannot overflow. */
  lemma {:induction false} DistinctBelow(list: seq<nat>, n: nat)
    requires Distinct(list) && forall i :: 0 <= i < |list| ==> list[i] < n
    ensures |list| <= n
    decreases n
  {
    if list == [] {
      return;
    }
    assert list[0] < n;
    if k: nat :| k < |list| && list[k] == n - 1 {
      var rest := list[..k] + list[k + 1..];
      assert forall i :: 0 <= i < |rest| ==> rest[i] == (if i < k then list[i] else list[i + 1]);
      DistinctBelow(rest, n - 1);
    } else {
      DistinctBelow(list, n - 1);
    }
  }

  class Worklist {
    const functions: seq<Function>
    const table: array<nat>
    var queued: array<bool>
    var count: nat
    /** The functions whose bodies have been emitted, in order. */
    var emitted: seq<nat>

    ghost predicate Valid()
      reads this, table, queued
    {
      && Declared(functions)
      && table.Length == queued.Length == |functions|
      && count <= table.Length
      && Distinct(table[..count])
      && (forall i :: 0 <= i < count ==> table[i] < |functions|)
      && (forall f :: 0 <= f < |functions| ==> (queued[f] <==> f in table[..count]))
    }

    constructor (fs: seq<Function>)
      requires Declared(fs)
      ensures Valid() && functions == fs && count == 0 && emitted == []
      ensures fresh(table) && fresh(queued)
    {
      functions := fs;
      table := new nat[|fs|](_ => 0);
      queued := new bool[|fs|](_ => false);
      count := 0;
      emitted := [];
    }

    /** Queues a function unless it is queued already; the overflow failure never happens. */
    method Queue(f: nat) returns (ok: bool)
      requires Valid() && f < |functions|
      modifies this`count, table, queued
      ensures Valid() && ok
      ensures table[..count] == (if f in old(table[..count]) then old(table[..count]) else old(table[..count]) + [f])
    {
      if queued[f] {
        return true;
      }
      ghost var list := table[..count];
      assert Distinct(list + [f]);
      DistinctBelow(list + [f], |functions|);
      if count >= table.Length {
        assert false;
        return false;
      }
      queued[f] := true;
      table[count] := f;
      count := count + 1;
      assert table[..count] == list + [f];
      ok := true;
    }

    /** Emits one body, queueing every function it refers to. */
    method EmitBody(f: nat) returns (ok: bool)
      requires Valid() && f < |functions|
      modifies this`count, this`emitted, table, queued
      ensures Valid() && ok && emitted == old(emitted) + [f]
      ensures old(table[..count]) <= table[..count]
      ensures forall g :: Uses(functions, f, g) ==> g in table[..count]
      ensures forall i :: old(count) <= i < |table[..count]| ==> Uses(functions, f, table[..count][i])
    {
      emitted := emitted + [f];
      if functions[f].external {
        return true;
      }
      hide Distinct, Uses;
      ghost var before := table[..count];
      var uses := functions[f].uses;
      for k := 0 to |uses|
        invariant Valid() && table[..count] == QueuedAll(before, uses, k)
        invariant emitted == old(emitted) + [f]
      {
        ok := Queue(uses[k]);
      }
      QueuedAllIs(functions, f, before, |uses|);
      ok := true;
    }

    /**
     Emits the entry and everything it reaches: the bodies emitted are exactly the reachable functions, each once,
     the entry first.
     */
    method EmitReachable(entry: nat) returns (ok: bool)
      requires Valid() && count == 0 && emitted == [] && entry < |functions|
      modifies this`count, this`emitted, table, queued
      ensures ok <==> !functions[entry].external
      ensures ok ==> Valid() && emitted == table[..count] && Distinct(emitted) && emitted != [] && emitted[0] == entry
      ensures ok ==> forall g :: g in emitted <==> Reaches(functions, entry, g)
    {
      if functions[entry].external {
        return false;
      }
      var queuedEntry := Queue(entry);
      ReachesSelf(functions, entry);
      var next := 0;
      while next < count
        invariant Valid() && next <= count && emitted == table[..next] && count > 0 && table[0] == entry
        invariant forall i :: 0 <= i < count ==> Reaches(functions, entry, table[i])
        invariant forall i, g :: 0 <= i < next && Uses(functions, table[i], g) ==> g in table[..count]
        decreases |functions| - next
      {
        var current := table[next];
        ghost var list, n := table[..count], count;
        ok := EmitBody(current);
        assert forall i :: 0 <= i < n ==> table[i] == list[i];
        forall i | n <= i < count
          ensures Reaches(functions, entry, table[i])
        {
          ReachesUse(functions, entry, current, table[i]);
        }
        forall i, g | 0 <= i < next && Uses(functions, table[i], g)
          ensures g in table[..count]
        {
          assert g in list;
        }
        next := next + 1;
      }
      ghost var inside := set f | f in table[..count];
      forall g | Reaches(functions, entry, g)
        ensures g in table[..count]
      {
        var chain :| IsChain(functions, chain) && chain[0] == entry && chain[|chain| - 1] == g;
        assert table[..count][0] == entry;
        ClosedContains(functions, inside, chain, |chain| - 1);
      }
      ok := true;
    }
  }

  /** The list after queueing the first `k` uses. */
  function QueuedAll(list: seq<nat>, uses: seq<nat>, k: nat): seq<nat>
    decreases k
  {
    if k == 0 || k > |uses| then list
    else
      var before := QueuedAll(list, uses, k - 1);
      if uses[k - 1] in before then before else before + [uses[k - 1]]
  }

  lemma {:induction false} QueuedAllIs(fs: seq<Function>, f: nat, list: seq<nat>, k: nat)
    requires f < |fs| && !fs[f].external && k <= |fs[f].uses|
    ensures var all := QueuedAll(list, fs[f].uses, k);
            && list <= all
            && (forall j :: 0 <= j < k ==> fs[f].uses[j] in all)
            && (forall i :: |list| <= i < |all| ==> Uses(fs, f, all[i]))
            && (k == |fs[f].uses| ==> forall g :: Uses(fs, f, g) ==> g in all)
    decreases k
  {
    if k > 0 {
      QueuedAllIs(fs, f, list, k - 1);
    }
  }
}
