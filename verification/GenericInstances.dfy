/** The table of generic function instances, and the checking loop that grows it. */
module GenericInstances {
  import opened Options
  import opened TypeSubstitution

  /** A generic function: its parameters, its type, and the unit that declares it. */
  datatype Template = Template(id: nat, parameters: seq<Name>, signature: Type, unit: Unit)

  datatype Instance = Instance(template: Template, arguments: seq<Type>, index: nat, signature: Type)

  datatype Request = Request(template: Template, arguments: seq<Type>)

  /** Types count as equal when each is compatible with the other. */
  predicate Same(compatible: (Type, Type) -> bool, a: Type, b: Type) {
    compatible(a, b) && compatible(b, a)
  }

  ghost predicate SameAll(compatible: (Type, Type) -> bool, a: seq<Type>, b: seq<Type>) {
    |a| == |b| && forall i :: 0 <= i < |a| ==> Same(compatible, a[i], b[i])
  }

  /** Mutual compatibility is an equivalence; which types of two units it tells apart is left open. */
  ghost predicate Equivalence(compatible: (Type, Type) -> bool) {
    && (forall a :: Same(compatible, a, a))
    && (forall a, b, c :: Same(compatible, a, b) && Same(compatible, b, c) ==> Same(compatible, a, c))
  }

  ghost predicate Answers(compatible: (Type, Type) -> bool, e: Instance, r: Request) {
    e.template == r.template && SameAll(compatible, e.arguments, r.arguments)
  }

  ghost predicate SameRequest(compatible: (Type, Type) -> bool, r: Request, s: Request) {
    r.template == s.template && SameAll(compatible, r.arguments, s.arguments)
  }

  /** Requests that ask for as many arguments as the template has parameters. */
  predicate WellFormed(r: Request) {
    |r.arguments| == |r.template.parameters|
  }

  /** Storing the arguments under the template's unit leaves them the types they were. */
  ghost predicate Stable(compatible: (Type, Type) -> bool, r: Request, active: Unit) {
    SameAll(compatible, CopyAll(r.arguments, Some(r.template.unit), active), r.arguments)
  }

  /** Positions give indices. */
  predicate Indexed(functions: nat, entries: seq<Instance>) {
    forall i :: 0 <= i < |entries| ==> entries[i].index == functions + i
  }

  /** No two entries answer the same request. */
  ghost predicate Canonical(compatible: (Type, Type) -> bool, entries: seq<Instance>) {
    forall i, j :: 0 <= i < j < |entries| ==>
      !(entries[i].template == entries[j].template
        && SameAll(compatible, entries[i].arguments, entries[j].arguments))
  }

  /** The instance made for a request: copied arguments, the next index, the substituted signature. */
  function Made(functions: nat, count: nat, r: Request, active: Unit): Instance
    requires WellFormed(r)
  {
    var arguments := CopyAll(r.arguments, Some(r.template.unit), active);
    Instance(r.template, arguments, functions + count,
             Substitute(r.template.signature, r.template.parameters, arguments, Some(r.template.unit), active))
  }

  lemma SameAllBoth(compatible: (Type, Type) -> bool, a: seq<Type>, b: seq<Type>, c: seq<Type>)
    requires Equivalence(compatible) && SameAll(compatible, a, b)
    ensures SameAll(compatible, b, a)
    ensures SameAll(compatible, a, c) <==> SameAll(compatible, b, c)
  {
    if SameAll(compatible, a, c) {
      forall i | 0 <= i < |b|
        ensures Same(compatible, b[i], c[i])
      {
        assert Same(compatible, b[i], a[i]) && Same(compatible, a[i], c[i]);
      }
    }
    if SameAll(compatible, b, c) {
      forall i | 0 <= i < |a|
        ensures Same(compatible, a[i], c[i])
      {
        assert Same(compatible, a[i], b[i]) && Same(compatible, b[i], c[i]);
      }
    }
  }

  lemma MadeAnswers(compatible: (Type, Type) -> bool, functions: nat, count: nat, r: Request, active: Unit)
    requires WellFormed(r)
    ensures Answers(compatible, Made(functions, count, r, active), r) <==> Stable(compatible, r, active)
  {
  }

  /** Arguments that all have a recorded owner are stored as they are, whatever compatibility distinguishes. */
  lemma OwnedIsStable(compatible: (Type, Type) -> bool, r: Request, active: Unit)
    requires Equivalence(compatible) && OwnedAll(r.arguments)
    ensures Stable(compatible, r, active)
  {
    CopiesOfOwned(r.arguments, Some(r.template.unit), active);
  }

  lemma {:induction false} CopiesOfOwned(ts: seq<Type>, unit: Option<Unit>, active: Unit)
    requires OwnedAll(ts)
    ensures CopyAll(ts, unit, active) == ts
  {
    if ts != [] {
      CopyOfOwned(ts[0], unit, active);
      CopiesOfOwned(ts[1..], unit, active);
    }
  }

  /**
   The instance's type is the template's type with the stored arguments substituted at once. Stored arguments are
   the requested ones where these have recorded owners; nodes without one are moved to the template's unit.
   */
  lemma MadeIsSubstituted(functions: nat, count: nat, r: Request, active: Unit)
    requires WellFormed(r) && r.arguments != []
    ensures
      var e := Made(functions, count, r, active);
      && e.signature == Simultaneous(Tagged(r.template.signature, r.template.unit), r.template.parameters, e.arguments)
      && OwnedAll(e.arguments)
      && (e.arguments == r.arguments <==> OwnedAll(r.arguments))
  {
    var arguments := CopyAll(r.arguments, Some(r.template.unit), active);
    CopiesOwned(r.arguments, Some(r.template.unit), active);
    if OwnedAll(r.arguments) {
      CopiesOfOwned(r.arguments, Some(r.template.unit), active);
    }
    SubstituteIsSimultaneous(r.template.signature, r.template.parameters, arguments, r.template.unit, active);
  }

  lemma {:induction false} CopiesOwned(ts: seq<Type>, unit: Option<Unit>, active: Unit)
    ensures OwnedAll(CopyAll(ts, unit, active))
  {
    if ts != [] {
      CopyIsOwned(ts[0], unit, active);
      CopiesOwned(ts[1..], unit, active);
    }
  }

  // ----- histories -----

  /** The first entry that answers a request, or the length. */
  ghost function FirstAnswer(compatible: (Type, Type) -> bool, entries: seq<Instance>, r: Request): (k: nat)
    ensures k <= |entries|
    ensures k < |entries| ==> Answers(compatible, entries[k], r)
    ensures forall i :: 0 <= i < k ==> !Answers(compatible, entries[i], r)
  {
    if entries == [] then 0
    else
      var k := FirstAnswer(compatible, entries[..|entries| - 1], r);
      if k < |entries| - 1 then k
      else if Answers(compatible, entries[|entries| - 1], r) then |entries| - 1
      else |entries|
  }

  /** The table after a request. */
  ghost function After(compatible: (Type, Type) -> bool, functions: nat, entries: seq<Instance>, r: Request,
                       active: Unit)
    : seq<Instance>
    requires WellFormed(r)
  {
    if FirstAnswer(compatible, entries, r) < |entries| then entries
    else entries + [Made(functions, |entries|, r, active)]
  }

  ghost predicate AllWellFormed(rs: seq<Request>) {
    forall i :: 0 <= i < |rs| ==> WellFormed(rs[i])
  }

  /** The table after a history of requests. */
  ghost function Run(compatible: (Type, Type) -> bool, functions: nat, rs: seq<Request>, active: Unit): seq<Instance>
    requires AllWellFormed(rs)
  {
    if rs == [] then []
    else
      After(compatible, functions, Run(compatible, functions, rs[..|rs| - 1], active), rs[|rs| - 1], active)
  }

  ghost predicate AllStable(compatible: (Type, Type) -> bool, rs: seq<Request>, active: Unit) {
    forall i :: 0 <= i < |rs| ==> Stable(compatible, rs[i], active)
  }

  lemma AfterIndexed(compatible: (Type, Type) -> bool, functions: nat, entries: seq<Instance>, r: Request, active: Unit)
    requires WellFormed(r) && Indexed(functions, entries)
    ensures
      var next := After(compatible, functions, entries, r, active);
      && entries <= next && Indexed(functions, next)
      && (Stable(compatible, r, active) ==> FirstAnswer(compatible, next, r) < |next|)
  {
    var next := After(compatible, functions, entries, r, active);
    if FirstAnswer(compatible, entries, r) == |entries| {
      MadeAnswers(compatible, functions, |entries|, r, active);
      assert next[|entries|] == Made(functions, |entries|, r, active);
    }
  }

  lemma AfterKeeps(compatible: (Type, Type) -> bool, functions: nat, entries: seq<Instance>, r: Request, active: Unit)
    requires Equivalence(compatible) && WellFormed(r) && Stable(compatible, r, active) && Canonical(compatible, entries)
    ensures Canonical(compatible, After(compatible, functions, entries, r, active))
  {
    var k := FirstAnswer(compatible, entries, r);
    if k == |entries| {
      var e := Made(functions, k, r, active);
      MadeAnswers(compatible, functions, k, r, active);
      forall i | 0 <= i < k
        ensures !(entries[i].template == e.template && SameAll(compatible, entries[i].arguments, e.arguments))
      {
        SameAllBoth(compatible, e.arguments, r.arguments, entries[i].arguments);
        if SameAll(compatible, entries[i].arguments, e.arguments) {
          SameAllBoth(compatible, entries[i].arguments, e.arguments, r.arguments);
        }
        assert !Answers(compatible, entries[i], r);
      }
    }
  }

  /** In a canonical table the entry that answers a request is unique, so growing the table never changes it. */
  lemma AnswerUnique(compatible: (Type, Type) -> bool, entries: seq<Instance>, r: Request, i: nat)
    requires Equivalence(compatible) && Canonical(compatible, entries)
    requires i < |entries| && Answers(compatible, entries[i], r)
    ensures FirstAnswer(compatible, entries, r) == i
  {
    var k := FirstAnswer(compatible, entries, r);
    assert k <= i;
    if k < i {
      SameAllBoth(compatible, entries[i].arguments, r.arguments, entries[k].arguments);
      SameAllBoth(compatible, entries[k].arguments, r.arguments, entries[i].arguments);
    }
  }

  /** A request that is answered stays answered, by the same entry. */
  lemma StaysAnswered(compatible: (Type, Type) -> bool, earlier: seq<Instance>, later: seq<Instance>, r: Request)
    requires earlier <= later && FirstAnswer(compatible, earlier, r) < |earlier|
    ensures FirstAnswer(compatible, later, r) == FirstAnswer(compatible, earlier, r)
  {
    var k := FirstAnswer(compatible, earlier, r);
    assert later[k] == earlier[k];
    forall i | 0 <= i < k
      ensures !Answers(compatible, later[i], r)
    {
      assert later[i] == earlier[i];
    }
  }

  /** After any history of stable requests the table is canonical and answers every request made. */
  lemma {:induction false} HistoryCanonical(compatible: (Type, Type) -> bool, functions: nat, rs: seq<Request>,
      active: Unit)
    requires Equivalence(compatible) && AllWellFormed(rs) && AllStable(compatible, rs, active)
    ensures
      var entries := Run(compatible, functions, rs, active);
      && Indexed(functions, entries) && Canonical(compatible, entries)
      && forall i :: 0 <= i < |rs| ==> FirstAnswer(compatible, entries, rs[i]) < |entries|
  {
    hide Equivalence, FirstAnswer, After, Stable;
    if rs != [] {
      var before := rs[..|rs| - 1];
      var earlier := Run(compatible, functions, before, active);
      var entries := Run(compatible, functions, rs, active);
      HistoryCanonical(compatible, functions, before, active);
      AfterIndexed(compatible, functions, earlier, rs[|rs| - 1], active);
      AfterKeeps(compatible, functions, earlier, rs[|rs| - 1], active);
      forall i | 0 <= i < |rs|
        ensures FirstAnswer(compatible, entries, rs[i]) < |entries|
      {
        if i < |before| {
          assert rs[i] == before[i];
          StaysAnswered(compatible, earlier, entries, rs[i]);
        }
      }
    }
  }

  /** Two requests of a history share an instance exactly when they name one template with equal arguments. */
  lemma SharedExactlyWhenSame(compatible: (Type, Type) -> bool, functions: nat, rs: seq<Request>, active: Unit,
                              i: nat, j: nat)
    requires Equivalence(compatible) && AllWellFormed(rs) && AllStable(compatible, rs, active) && i < |rs| && j < |rs|
    ensures
      var entries := Run(compatible, functions, rs, active);
      FirstAnswer(compatible, entries, rs[i]) == FirstAnswer(compatible, entries, rs[j])
      <==> SameRequest(compatible, rs[i], rs[j])
  {
    HistoryCanonical(compatible, functions, rs, active);
    var entries := Run(compatible, functions, rs, active);
    var a, b := FirstAnswer(compatible, entries, rs[i]), FirstAnswer(compatible, entries, rs[j]);
    assert a < |entries| && b < |entries|;
    SameAllBoth(compatible, entries[a].arguments, rs[i].arguments, rs[j].arguments);
    if SameRequest(compatible, rs[i], rs[j]) {
      AnswerUnique(compatible, entries, rs[j], a);
    }
  }

  // ----- arguments that storing changes -----

  /** Asking twice gives one instance exactly if the request is stable. */
  lemma RepeatSharesIff(compatible: (Type, Type) -> bool, functions: nat, r: Request, active: Unit)
    requires Equivalence(compatible) && WellFormed(r)
    ensures Canonical(compatible, Run(compatible, functions, [r, r], active)) <==> Stable(compatible, r, active)
  {
    var one, two := Made(functions, 0, r, active), Made(functions, 1, r, active);
    MadeAnswers(compatible, functions, 0, r, active);
    assert [r, r][..1] == [r] && [r][..0] == [];
    assert Run(compatible, functions, [r], active) == [one];
    if Stable(compatible, r, active) {
      assert [one][..0] == [];
      assert Run(compatible, functions, [r, r], active) == [one];
    } else {
      var entries := Run(compatible, functions, [r, r], active);
      assert FirstAnswer(compatible, [one], r) == 1 by {
        assert [one][..0] == [];
      }
      assert entries == [one, two];
      assert SameAll(compatible, entries[0].arguments, entries[1].arguments);
    }
  }

  /** The argument type of this name, written in a body: it has no recorded owner. */
  function LocalRequest(name: Name, unit: Unit): Request {
    Request(Template(0, [name], Named(name, [], None), unit), [Named(name, [], None)])
  }

  /** With plain equality of types, asking twice for such an argument leaves two entries with equal arguments. */
  lemma LocalRequestRepeats(name: Name, unit: Unit, functions: nat, active: Unit)
    ensures
      var entries := Run((a, b) => a == b, functions, [LocalRequest(name, unit), LocalRequest(name, unit)], active);
      && |entries| == 2
      && entries[0].template == entries[1].template && entries[0].arguments == entries[1].arguments
  {
    var same, r := (a: Type, b: Type) => a == b, LocalRequest(name, unit);
    var one, two := Made(functions, 0, r, active), Made(functions, 1, r, active);
    assert one.arguments[0] == Named(name, [], Some(unit)) != r.arguments[0];
    assert !Same(same, one.arguments[0], r.arguments[0]);
    assert [r, r][..1] == [r] && [r][..0] == [] && [one][..0] == [];
    assert Run(same, functions, [r], active) == [one];
    assert FirstAnswer(same, [one], r) == 1;
    assert Run(same, functions, [r, r], active) == [one, two];
  }

  // ----- the table -----

  class InstanceTable {
    const functions: nat
    const active: Unit
    const compatible: (Type, Type) -> bool
    var entries: seq<Instance>

    predicate Valid()
      reads this
    {
      Indexed(functions, entries)
    }

    constructor (functions: nat, active: Unit, compatible: (Type, Type) -> bool)
      ensures Valid() && entries == []
      ensures this.functions == functions && this.active == active && this.compatible == compatible
    {
      this.functions, this.active, this.compatible := functions, active, compatible;
      entries := [];
    }

    method ArgumentsEqual(a: seq<Type>, b: seq<Type>) returns (equal: bool)
      requires |a| == |b|
      ensures equal <==> SameAll(compatible, a, b)
    {
      for index := 0 to |a|
        invariant forall i :: 0 <= i < index ==> Same(compatible, a[i], b[i])
      {
        if !(compatible(a[index], b[index]) && compatible(b[index], a[index])) {
          return false;
        }
      }
      return true;
    }

    /** The instance for a request: the entry that answers it, or a new one; nothing for a wrong argument count. */
    method FunctionInstance(r: Request) returns (e: Option<Instance>)
      requires Valid()
      modifies this
      ensures Valid() && old(entries) <= entries
      ensures !WellFormed(r) ==> e.None? && entries == old(entries)
      ensures WellFormed(r) ==>
                var k := FirstAnswer(compatible, old(entries), r);
                && entries == After(compatible, functions, old(entries), r, active)
                && k < |entries| && e == Some(entries[k])
                && (Stable(compatible, r, active) ==> k == FirstAnswer(compatible, entries, r))
    {
      if |r.arguments| != |r.template.parameters| {
        return None;
      }
      AfterIndexed(compatible, functions, entries, r, active);
      for index := 0 to |entries|
        invariant entries == old(entries)
        invariant forall i :: 0 <= i < index ==> !Answers(compatible, entries[i], r)
      {
        var entry := entries[index];
        if entry.template == r.template && |entry.arguments| == |r.arguments| {
          var equal := ArgumentsEqual(entry.arguments, r.arguments);
          if equal {
            return Some(entry);
          }
        }
      }
      assert FirstAnswer(compatible, entries, r) == |entries|;
      var made := Made(functions, |entries|, r, active);
      entries := entries + [made];
      return Some(made);
    }

    /** The instance at a table position: the one whose index, less the ordinary functions, is that position. */
    method FunctionAt(position: nat) returns (e: Option<Instance>)
      requires Valid()
      ensures e.Some? <==> position < |entries|
      ensures e.Some? ==> e.value == entries[position] && e.value.index - functions == position
    {
      if position >= |entries| {
        return None;
      }
      return Some(entries[position]);
    }

    /** Every stable request an entry's body makes is answered. */
    ghost predicate AnsweredUpTo(n: nat, body: Instance -> Option<seq<Request>>)
      requires n <= |entries|
      reads this
    {
      forall i :: 0 <= i < n ==> body(entries[i]).Some? && Answered(body(entries[i]).value)
    }

    ghost predicate Answered(rs: seq<Request>)
      reads this
    {
      forall k :: 0 <= k < |rs| && WellFormed(rs[k]) && Stable(compatible, rs[k], active) ==>
        FirstAnswer(compatible, entries, rs[k]) < |entries|
    }

    lemma StillAnswered(earlier: seq<Instance>, rs: seq<Request>)
      requires earlier <= entries
      requires forall k :: 0 <= k < |rs| && WellFormed(rs[k]) && Stable(compatible, rs[k], active) ==>
                 FirstAnswer(compatible, earlier, rs[k]) < |earlier|
      ensures Answered(rs)
    {
      forall k | 0 <= k < |rs| && WellFormed(rs[k]) && Stable(compatible, rs[k], active)
        ensures FirstAnswer(compatible, entries, rs[k]) < |entries|
      {
        StaysAnswered(compatible, earlier, entries, rs[k]);
      }
    }

    /** A table in which no two entries answer the same request. */
    ghost predicate Unique()
      reads this
    {
      Equivalence(compatible) && Canonical(compatible, entries)
    }

    /** Requests every instance a checked body names. */
    method RequestAll(rs: seq<Request>)
      requires Valid()
      modifies this
      ensures Valid() && old(entries) <= entries && Answered(rs)
      ensures old(Unique()) && AllStable(compatible, rs, active) ==> Unique()
    {
      for k := 0 to |rs|
        invariant Valid() && old(entries) <= entries && Answered(rs[..k])
        invariant old(Unique()) && AllStable(compatible, rs, active) ==> Unique()
      {
        ghost var earlier := entries;
        if old(Unique()) && AllStable(compatible, rs, active) && WellFormed(rs[k]) {
          AfterKeeps(compatible, functions, earlier, rs[k], active);
        }
        var e := FunctionInstance(rs[k]);
        StillAnswered(earlier, rs[..k]);
      }
      assert rs[..|rs|] == rs;
    }

    /**
     Checks instances while the table grows, at most `limit` of them. `body` is what checking one instance
     yields: nothing when it is rejected, otherwise the instances its body names. If the loop reaches the end,
     every instance was checked and every instance any of them names with stable arguments is in the table, once.
     */
    method CheckInstances(limit: nat, body: Instance -> Option<seq<Request>>) returns (finished: bool)
      requires Valid()
      modifies this
      ensures Valid() && old(entries) <= entries
      ensures finished ==> AnsweredUpTo(|entries|, body)
      ensures old(Unique()) && (forall e: Instance :: body(e).Some? ==> AllStable(compatible, body(e).value, active)) ==>
                Unique()
    {
      var index := 0;
      while index < |entries| && index < limit
        invariant Valid() && old(entries) <= entries && index <= |entries|
        invariant AnsweredUpTo(index, body)
        invariant old(Unique()) && (forall e: Instance :: body(e).Some? ==> AllStable(compatible, body(e).value, active)) ==>
                    Unique()
        decreases limit - index
      {
        var named := body(entries[index]);
        if named.None? {
          return false;
        }
        ghost var earlier := entries;
        RequestAll(named.value);
        forall i | 0 <= i < index
          ensures body(entries[i]).Some? && Answered(body(entries[i]).value)
        {
          assert entries[i] == earlier[i];
          StillAnswered(earlier, body(earlier[i]).value);
        }
        assert entries[index] == earlier[index];
        index := index + 1;
      }
      return index == |entries|;
    }
  }
}
