/** Module-level bindings and aliases: which aliases a module accepts and what they resolve to. */
module ModuleAliases {
  import opened Options

  /** A name, as the sequence of scalars that is its identity. */
  type Name = seq<nat>

  /** `Name` or `Parent.Name`. */
  datatype Path = Path(parent: Option<Name>, name: Name)

  datatype Shape = Enumeration(constructors: seq<Name>) | OtherDeclaration

  datatype Item =
    | Declared(name: Name, public: bool, shape: Shape)
    | Alias(public: bool, destination: Path, target: Path)

  datatype AliasError = Malformed | UnsatisfiedUse | UnknownName | DuplicateDeclaration | PrivateDeclaration

  /** The root name an item binds; qualified aliases bind none. */
  function BindingName(item: Item): Option<Name> {
    match item
    case Declared(name, _, _) => Some(name)
    case Alias(_, destination, _) => if destination.parent.None? then Some(destination.name) else None
  }

  predicate QualifiedAlias(item: Item) {
    item.Alias? && item.destination.parent.Some?
  }

  // ----- resolution -----

  /** The first item that binds a name. */
  function Binding(items: seq<Item>, name: Name): (r: Option<nat>)
    ensures r.Some? ==> r.value < |items| && BindingName(items[r.value]) == Some(name)
    ensures forall k :: 0 <= k < (if r.Some? then r.value else |items|) ==> BindingName(items[k]) != Some(name)
  {
    if items == [] then None
    else
      var r := Binding(items[..|items| - 1], name);
      if r.Some? then r
      else if BindingName(items[|items| - 1]) == Some(name) then Some(|items| - 1)
      else None
  }

  /** Following root aliases for a number of steps. */
  function RootWithin(items: seq<Item>, name: Name, steps: nat): (r: Option<nat>)
    ensures r.Some? ==> r.value < |items| && items[r.value].Declared?
    decreases steps
  {
    if steps == 0 then None
    else
      match Binding(items, name)
      case None => None
      case Some(i) =>
        if items[i].Declared? then Some(i)
        else if items[i].target.parent.Some? then None
        else RootWithin(items, items[i].target.name, steps - 1)
  }

  /** What a root name resolves to. */
  function Root(items: seq<Item>, name: Name): Option<nat> {
    RootWithin(items, name, |items| + 1)
  }

  function RootOf(items: seq<Item>, parent: Option<Name>): Option<nat> {
    if parent.None? then None else Root(items, parent.value)
  }

  /** The constructor an enumeration declares under a name. */
  function FirstNamed(names: seq<Name>, name: Name): (r: Option<nat>)
    ensures r.Some? ==> r.value < |names| && names[r.value] == name
    ensures r.None? ==> name !in names
  {
    if names == [] then None
    else
      var r := FirstNamed(names[..|names| - 1], name);
      if r.Some? then r else if names[|names| - 1] == name then Some(|names| - 1) else None
  }

  function Constructor(item: Item, name: Name): Option<nat> {
    if item.Declared? && item.shape.Enumeration? then FirstNamed(item.shape.constructors, name) else None
  }

  /** Whether an item is an alias for a child name of a parent, with roots resolved in `items`. */
  predicate ChildAlias(items: seq<Item>, item: Item, parent: nat, name: Name) {
    && QualifiedAlias(item)
    && item.destination.name == name
    && RootOf(items, item.destination.parent) == Some(parent)
  }

  /** The first child alias among the first `n` items. */
  function FirstChild(items: seq<Item>, n: nat, parent: nat, name: Name): (r: Option<nat>)
    requires n <= |items|
    ensures r.Some? ==> r.value < n && ChildAlias(items, items[r.value], parent, name)
    ensures forall k :: 0 <= k < (if r.Some? then r.value else n) ==> !ChildAlias(items, items[k], parent, name)
  {
    if n == 0 then None
    else
      var r := FirstChild(items, n - 1, parent, name);
      if r.Some? then r else if ChildAlias(items, items[n - 1], parent, name) then Some(n - 1) else None
  }

  /** Following child aliases of one parent for a number of steps. */
  function ChildWithin(items: seq<Item>, parent: nat, name: Name, steps: nat): Option<nat>
    requires parent < |items|
    decreases steps
  {
    if steps == 0 then None
    else if Constructor(items[parent], name).Some? then Constructor(items[parent], name)
    else
      match FirstChild(items, |items|, parent, name)
      case None => None
      case Some(i) =>
        if RootOf(items, items[i].target.parent) != Some(parent) then None
        else ChildWithin(items, parent, items[i].target.name, steps - 1)
  }

  /** The constructor a child name of a parent resolves to. */
  function Child(items: seq<Item>, parent: nat, name: Name): Option<nat>
    requires parent < |items|
  {
    ChildWithin(items, parent, name, |items| + 1)
  }

  // ----- what a module accepts -----

  /** The first error of an alias, or none. `builtins` are the functions a private alias may name. */
  function AliasFault(builtins: set<Name>, items: seq<Item>, item: Item, terminated: bool): Option<AliasError>
    requires item.Alias?
  {
    var d, t := item.destination, item.target;
    if d.parent.Some? != t.parent.Some? then Some(UnsatisfiedUse)
    else if !item.public then
      if d.parent.Some? || d.name == t.name then Some(UnsatisfiedUse)
      else if t.name !in builtins then Some(UnknownName)
      else if !terminated then Some(Malformed)
      else DuplicateFault(items, d.name)
    else if d.parent.None? then
      if d.name == t.name then Some(DuplicateDeclaration)
      else
        match Binding(items, t.name)
        case None => Some(UnknownName)
        case Some(i) =>
          if !items[i].public then Some(PrivateDeclaration)
          else if !terminated then Some(Malformed)
          else DuplicateFault(items, d.name)
    else
      match (RootOf(items, d.parent), RootOf(items, t.parent))
      case (None, _) => Some(UnknownName)
      case (_, None) => Some(UnknownName)
      case (Some(p), Some(q)) =>
        if !items[p].public || !items[q].public then Some(PrivateDeclaration)
        else if p != q then Some(UnsatisfiedUse)
        else if d.name == t.name then Some(DuplicateDeclaration)
        else if Child(items, p, d.name).Some? then Some(DuplicateDeclaration)
        else if Child(items, q, t.name).None? then Some(UnknownName)
        else if !terminated then Some(Malformed)
        else None
  }

  function DuplicateFault(items: seq<Item>, name: Name): Option<AliasError> {
    if Binding(items, name).Some? then Some(DuplicateDeclaration) else None
  }

  /** An item the module accepts after the items it already has. */
  predicate Admits(builtins: set<Name>, items: seq<Item>, item: Item) {
    match item
    case Declared(name, _, _) => Binding(items, name).None?
    case Alias(_, _, _) => AliasFault(builtins, items, item, true).None?
  }

  /** The item sequences parsing can build. */
  predicate Built(builtins: set<Name>, items: seq<Item>) {
    items == [] || (Built(builtins, items[..|items| - 1]) && Admits(builtins, items[..|items| - 1], items[|items| - 1]))
  }

  // ----- resolved names stay resolved -----

  lemma BindingStable(items: seq<Item>, x: Item, name: Name)
    ensures Binding(items, name).Some? ==> Binding(items + [x], name) == Binding(items, name)
    ensures Binding(items, name).None? ==>
              Binding(items + [x], name) == if BindingName(x) == Some(name) then Some(|items|) else None
  {
    assert (items + [x])[..|items|] == items;
  }

  lemma {:induction false} RootStable(items: seq<Item>, x: Item, name: Name, steps: nat, more: nat)
    requires steps <= more && RootWithin(items, name, steps).Some?
    ensures RootWithin(items + [x], name, more) == RootWithin(items, name, steps)
    decreases steps
  {
    BindingStable(items, x, name);
    var i := Binding(items, name).value;
    if items[i].Alias? {
      RootStable(items, x, items[i].target.name, steps - 1, more - 1);
    }
  }

  lemma RootOfStable(items: seq<Item>, x: Item, parent: Option<Name>)
    requires RootOf(items, parent).Some?
    ensures RootOf(items + [x], parent) == RootOf(items, parent)
  {
    RootStable(items, x, parent.value, |items| + 1, |items| + 2);
  }

  /** A qualified alias whose two parents resolve to one type and whose name reaches a constructor of it. */
  ghost predicate ReachesConstructor(items: seq<Item>, i: nat) {
    i < |items| && QualifiedAlias(items[i]) ==>
      && RootOf(items, items[i].destination.parent).Some?
      && RootOf(items, items[i].target.parent) == RootOf(items, items[i].destination.parent)
      && Child(items, RootOf(items, items[i].destination.parent).value, items[i].destination.name).Some?
  }

  ghost predicate ParentsResolve(items: seq<Item>) {
    forall i :: 0 <= i < |items| && QualifiedAlias(items[i]) ==> RootOf(items, items[i].destination.parent).Some?
  }

  lemma {:induction false} FirstChildStable(items: seq<Item>, x: Item, n: nat, parent: nat, name: Name)
    requires n <= |items| && ParentsResolve(items)
    ensures FirstChild(items + [x], n, parent, name) == FirstChild(items, n, parent, name)
  {
    if n > 0 {
      FirstChildStable(items, x, n - 1, parent, name);
      var item := items[n - 1];
      assert (items + [x])[n - 1] == item;
      if QualifiedAlias(item) {
        RootOfStable(items, x, item.destination.parent);
      }
    }
  }

  lemma {:induction false} ChildStable(items: seq<Item>, x: Item, parent: nat, name: Name, steps: nat, more: nat)
    requires parent < |items| && steps <= more && ParentsResolve(items)
    requires ChildWithin(items, parent, name, steps).Some?
    ensures ChildWithin(items + [x], parent, name, more) == ChildWithin(items, parent, name, steps)
    decreases steps
  {
    hide Root, Binding;
    var all := items + [x];
    assert all[parent] == items[parent];
    if Constructor(items[parent], name).None? {
      FirstChildStable(items, x, |items|, parent, name);
      assert FirstChild(all, |items| + 1, parent, name) == FirstChild(items, |items|, parent, name);
      var i := FirstChild(items, |items|, parent, name).value;
      assert all[i] == items[i];
      RootOfStable(items, x, items[i].target.parent);
      ChildStable(items, x, parent, items[i].target.name, steps - 1, more - 1);
    }
  }

  // ----- accepted aliases resolve -----

  lemma AppendReaches(builtins: set<Name>, items: seq<Item>, x: Item, i: nat)
    requires Admits(builtins, items, x) && i < |items|
    requires ParentsResolve(items) && ReachesConstructor(items, i)
    ensures ReachesConstructor(items + [x], i)
  {
    hide RootWithin, Admits, ParentsResolve, ChildWithin;
    var item := items[i];
    assert (items + [x])[i] == item;
    if QualifiedAlias(item) {
      RootOfStable(items, x, item.destination.parent);
      RootOfStable(items, x, item.target.parent);
      var p := RootOf(items, item.destination.parent).value;
      ChildStable(items, x, p, item.destination.name, |items| + 1, |items| + 2);
    }
  }

  /** A newly accepted qualified alias reaches the constructor its target reaches. */
  lemma NewAliasReaches(builtins: set<Name>, items: seq<Item>, x: Item)
    requires QualifiedAlias(x) && Admits(builtins, items, x)
    requires ParentsResolve(items)
    requires forall i :: 0 <= i < |items| ==> ReachesConstructor(items, i)
    ensures ReachesConstructor(items + [x], |items|)
    ensures
      var p := RootOf(items, x.destination.parent).value;
      Child(items + [x], p, x.destination.name) == Child(items, p, x.target.name)
  {
    var all := items + [x];
    var p := RootOf(items, x.destination.parent).value;
    var d := x.destination.name;
    RootOfStable(items, x, x.destination.parent);
    RootOfStable(items, x, x.target.parent);
    assert all[p] == items[p] && all[|items|] == x;
    var earlier := FirstChild(items, |items|, p, d);
    if earlier.Some? {
      assert ReachesConstructor(items, earlier.value);
    }
    FirstChildStable(items, x, |items|, p, d);
    assert FirstChild(all, |items| + 1, p, d) == Some(|items|);
    ChildStable(items, x, p, x.target.name, |items| + 1, |items| + 1);
  }

  /** Every accepted qualified alias resolves, within the step bound, to a constructor of its parent. */
  lemma {:induction false} QualifiedAliasesReach(builtins: set<Name>, items: seq<Item>)
    requires Built(builtins, items)
    ensures ParentsResolve(items)
    ensures forall i :: 0 <= i < |items| ==> ReachesConstructor(items, i)
    decreases |items|
  {
    if items != [] {
      var before, x := items[..|items| - 1], items[|items| - 1];
      QualifiedAliasesReach(builtins, before);
      assert before + [x] == items;
      forall i | 0 <= i < |items|
        ensures ReachesConstructor(items, i)
      {
        if i < |before| {
          assert ReachesConstructor(before, i);
          AppendReaches(builtins, before, x, i);
        } else if QualifiedAlias(x) {
          NewAliasReaches(builtins, before, x);
        }
      }
      forall i | 0 <= i < |items| && QualifiedAlias(items[i])
        ensures RootOf(items, items[i].destination.parent).Some?
      {
        assert ReachesConstructor(items, i);
      }
    }
  }

  /** A public binding reaches a public declaration. */
  ghost predicate PublicResolves(items: seq<Item>, i: nat) {
    i < |items| && items[i].public && BindingName(items[i]).Some? ==>
      && Binding(items, BindingName(items[i]).value) == Some(i)
      && Root(items, BindingName(items[i]).value).Some?
      && items[Root(items, BindingName(items[i]).value).value].public
  }

  lemma AppendResolves(items: seq<Item>, x: Item, i: nat)
    requires i < |items| && PublicResolves(items, i)
    ensures PublicResolves(items + [x], i)
  {
    var item := items[i];
    assert (items + [x])[i] == item;
    if item.public && BindingName(item).Some? {
      var name := BindingName(item).value;
      BindingStable(items, x, name);
      RootStable(items, x, name, |items| + 1, |items| + 2);
    }
  }

  lemma NewPublicResolves(builtins: set<Name>, items: seq<Item>, x: Item)
    requires Admits(builtins, items, x)
    requires forall i :: 0 <= i < |items| ==> PublicResolves(items, i)
    ensures PublicResolves(items + [x], |items|)
  {
    var all := items + [x];
    assert all[|items|] == x;
    if x.public && BindingName(x).Some? {
      var name := BindingName(x).value;
      assert Binding(items, name).None?;
      BindingStable(items, x, name);
      if x.Alias? {
        var i := Binding(items, x.target.name).value;
        assert PublicResolves(items, i);
        RootStable(items, x, x.target.name, |items| + 1, |items| + 1);
        assert Root(all, name) == RootWithin(all, x.target.name, |items| + 1);
      }
    }
  }

  /** Every public root binding, alias or not, resolves within the step bound to a public declaration. */
  lemma {:induction false} PublicBindingsResolve(builtins: set<Name>, items: seq<Item>)
    requires Built(builtins, items)
    ensures forall i :: 0 <= i < |items| ==> PublicResolves(items, i)
    decreases |items|
  {
    if items != [] {
      var before, x := items[..|items| - 1], items[|items| - 1];
      PublicBindingsResolve(builtins, before);
      assert before + [x] == items;
      forall i | 0 <= i < |items|
        ensures PublicResolves(items, i)
      {
        if i < |before| {
          assert PublicResolves(before, i);
          AppendResolves(before, x, i);
        } else {
          NewPublicResolves(builtins, before, x);
        }
      }
    }
  }

  /** So the only bound names that do not resolve are private aliases of built-in functions. */
  lemma OnlyPrivateAliasesUnresolved(builtins: set<Name>, items: seq<Item>, name: Name)
    requires Built(builtins, items) && Root(items, name).None?
    ensures
      match Binding(items, name)
      case None => true
      case Some(i) => items[i].Alias? && !items[i].public
  {
    PublicBindingsResolve(builtins, items);
    var b := Binding(items, name);
    if b.Some? {
      assert PublicResolves(items, b.value);
    }
  }

  /** Every name and child name that resolves in `items` means the same in `later`. */
  ghost predicate MeaningsKept(items: seq<Item>, later: seq<Item>) {
    && |items| <= |later|
    && (forall name :: Root(items, name).Some? ==> Root(later, name) == Root(items, name))
    && (forall parent: nat, name :: parent < |items| && Child(items, parent, name).Some? ==>
          Child(later, parent, name) == Child(items, parent, name))
  }

  lemma OneMoreKeeps(items: seq<Item>, x: Item)
    requires ParentsResolve(items)
    ensures MeaningsKept(items, items + [x])
  {
    hide Root, Child, ParentsResolve;
    forall name | Root(items, name).Some?
      ensures Root(items + [x], name) == Root(items, name)
    {
      RootOfStable(items, x, Some(name));
    }
    forall parent: nat, name | parent < |items| && Child(items, parent, name).Some?
      ensures Child(items + [x], parent, name) == Child(items, parent, name)
    {
      ChildKept(items, x, parent, name);
    }
  }

  lemma ChildKept(items: seq<Item>, x: Item, parent: nat, name: Name)
    requires parent < |items| && ParentsResolve(items) && Child(items, parent, name).Some?
    ensures Child(items + [x], parent, name) == Child(items, parent, name)
  {
    ChildStable(items, x, parent, name, |items| + 1, |items| + 2);
  }

  lemma KeptTwice(a: seq<Item>, b: seq<Item>, c: seq<Item>)
    requires MeaningsKept(a, b) && MeaningsKept(b, c)
    ensures MeaningsKept(a, c)
  {
    hide Root, Child;
  }

  /** Whatever is accepted later, every name and every child name that resolves keeps its meaning. */
  lemma {:induction false} MeaningsNeverChange(builtins: set<Name>, items: seq<Item>, more: seq<Item>)
    requires Built(builtins, items + more)
    ensures Built(builtins, items) && MeaningsKept(items, items + more)
    decreases |more|
  {
    hide MeaningsKept, Admits;
    if more == [] {
      assert items + more == items;
      NothingChanges(items);
    } else {
      var less, x := more[..|more| - 1], more[|more| - 1];
      var before := items + less;
      assert items + more == before + [x];
      assert (items + more)[..|items + more| - 1] == before;
      MeaningsNeverChange(builtins, items, less);
      QualifiedAliasesReach(builtins, before);
      OneMoreKeeps(before, x);
      KeptTwice(items, before, items + more);
    }
  }

  lemma NothingChanges(items: seq<Item>)
    ensures MeaningsKept(items, items)
  {
  }

  /** Private aliases may form a cycle; only the step bound ends their resolution, and it ends unresolved. */
  lemma PrivateAliasesMayCycle(a: Name, b: Name)
    requires a != b
    ensures
      var cycle := [Alias(false, Path(None, a), Path(None, b)), Alias(false, Path(None, b), Path(None, a))];
      Built({a, b}, cycle) && Root(cycle, a) == None && Root(cycle, b) == None
  {
    var first, second := Alias(false, Path(None, a), Path(None, b)), Alias(false, Path(None, b), Path(None, a));
    var cycle := [first, second];
    SingleBuilt({a, b}, first);
    assert cycle[..1] == [first] && cycle[1] == second;
    assert Binding([first], b).None?;
    assert Admits({a, b}, [first], second);
    assert Binding(cycle, a) == Some(0) && Binding(cycle, b) == Some(1);
    forall steps: nat
      ensures RootWithin(cycle, a, steps).None? && RootWithin(cycle, b, steps).None?
    {
      CycleUnresolved(cycle, a, b, steps);
    }
  }

  lemma {:induction false} CycleUnresolved(items: seq<Item>, a: Name, b: Name, steps: nat)
    requires Binding(items, a).Some? && items[Binding(items, a).value] == Alias(false, Path(None, a), Path(None, b))
    requires Binding(items, b).Some? && items[Binding(items, b).value] == Alias(false, Path(None, b), Path(None, a))
    ensures RootWithin(items, a, steps).None? && RootWithin(items, b, steps).None?
  {
    if steps > 0 {
      CycleUnresolved(items, a, b, steps - 1);
    }
  }

  lemma SingleBuilt(builtins: set<Name>, x: Item)
    requires Admits(builtins, [], x)
    ensures Built(builtins, [x])
  {
    assert [x][..0] == [];
  }

  /** A private alias is the one kind of bound name whose resolution a later item may change. */
  lemma PrivateAliasMayChange(a: Name, b: Name)
    requires a != b
    ensures
      var items := [Alias(false, Path(None, a), Path(None, b))];
      var later := items + [Declared(b, true, OtherDeclaration)];
      Built({b}, later) && Root(items, a) == None && Root(later, a) == Some(1)
  {
    var x := Alias(false, Path(None, a), Path(None, b));
    var y := Declared(b, true, OtherDeclaration);
    var items, later := [x], [x] + [y];
    SingleBuilt({b}, x);
    assert later[..1] == items && items[..0] == [];
    assert Binding(items, a) == Some(0) && Binding(items, b) == None;
    assert Admits({b}, items, y);
    assert later[|later| - 1] == y && later[1] == y && later[0] == x;
    assert Binding(later, a) == Some(0) && Binding(later, b) == Some(1);
    assert RootWithin(items, a, 2) == RootWithin(items, b, 1) == None;
    assert RootWithin(later, a, 3) == RootWithin(later, b, 2) == Some(1);
  }

  // ----- the module's item list -----

  class ItemList {
    var items: seq<Item>
    const builtins: set<Name>

    constructor (builtins: set<Name>)
      ensures items == [] && this.builtins == builtins && Built(builtins, items)
    {
      this.builtins := builtins;
      items := [];
    }

    method FindBinding(name: Name) returns (r: Option<nat>)
      ensures r == Binding(items, name)
    {
      for index := 0 to |items|
        invariant Binding(items[..index], name).None?
      {
        assert items[..index + 1][..index] == items[..index];
        if BindingName(items[index]) == Some(name) {
          BindingPrefix(items, index + 1, name);
          return Some(index);
        }
      }
      assert items[..|items|] == items;
      return None;
    }

    static lemma {:induction false} BindingPrefix(items: seq<Item>, n: nat, name: Name)
      requires n <= |items| && Binding(items[..n], name).Some?
      ensures Binding(items, name) == Binding(items[..n], name)
      decreases |items| - n
    {
      if n < |items| {
        assert items[..n + 1][..n] == items[..n];
        BindingPrefix(items, n + 1, name);
      } else {
        assert items[..n] == items;
      }
    }

    /** Follows root aliases, at most one step more than there are items. */
    method ResolveRootBinding(name: Name) returns (r: Option<nat>)
      ensures r == Root(items, name)
    {
      var resolved := name;
      for depth := 0 to |items| + 1
        invariant Root(items, name) == RootWithin(items, resolved, |items| + 1 - depth)
      {
        var binding := FindBinding(resolved);
        if binding.None? {
          return None;
        }
        var item := items[binding.value];
        if item.Declared? {
          return binding;
        }
        if item.target.parent.Some? {
          return None;
        }
        resolved := item.target.name;
      }
      return None;
    }

    static method FindConstructor(parent: Item, name: Name) returns (r: Option<nat>)
      ensures r == Constructor(parent, name)
    {
      if !parent.Declared? || !parent.shape.Enumeration? {
        return None;
      }
      var names := parent.shape.constructors;
      for index := 0 to |names|
        invariant FirstNamed(names[..index], name).None?
      {
        assert names[..index + 1][..index] == names[..index];
        if names[index] == name {
          NamedPrefix(names, index + 1, name);
          return Some(index);
        }
      }
      assert names[..|names|] == names;
      return None;
    }

    static lemma {:induction false} NamedPrefix(names: seq<Name>, n: nat, name: Name)
      requires n <= |names| && FirstNamed(names[..n], name).Some?
      ensures FirstNamed(names, name) == FirstNamed(names[..n], name)
      decreases |names| - n
    {
      if n < |names| {
        assert names[..n + 1][..n] == names[..n];
        NamedPrefix(names, n + 1, name);
      } else {
        assert names[..n] == names;
      }
    }

    /** The first alias item for a child name of the parent. */
    method FindChildAlias(parent: nat, name: Name) returns (r: Option<nat>)
      ensures r == FirstChild(items, |items|, parent, name)
    {
      hide RootWithin, Binding;
      for index := 0 to |items|
        invariant FirstChild(items, index, parent, name).None?
      {
        var item := items[index];
        if QualifiedAlias(item) && item.destination.name == name {
          var root := ResolveRootBinding(item.destination.parent.value);
          if root == Some(parent) {
            ChildPrefix(items, index + 1, parent, name);
            return Some(index);
          }
        }
      }
      return None;
    }

    static lemma {:induction false} ChildPrefix(items: seq<Item>, n: nat, parent: nat, name: Name)
      requires n <= |items| && FirstChild(items, n, parent, name).Some?
      ensures FirstChild(items, |items|, parent, name) == FirstChild(items, n, parent, name)
      decreases |items| - n
    {
      if n < |items| {
        ChildPrefix(items, n + 1, parent, name);
      }
    }

    /** Follows child aliases of one enumeration, at most one step more than there are items. */
    method ResolveEnumChild(parent: nat, name: Name) returns (r: Option<nat>)
      requires parent < |items|
      ensures r == Child(items, parent, name)
    {
      var resolved := name;
      for depth := 0 to |items| + 1
        invariant Child(items, parent, name) == ChildWithin(items, parent, resolved, |items| + 1 - depth)
      {
        var direct := FindConstructor(items[parent], resolved);
        if direct.Some? {
          return direct;
        }
        var alias := FindChildAlias(parent, resolved);
        if alias.None? {
          return None;
        }
        var target := items[alias.value].target;
        var root: Option<nat> := None;
        if target.parent.Some? {
          root := ResolveRootBinding(target.parent.value);
        }
        if root != Some(parent) {
          return None;
        }
        resolved := target.name;
      }
      return None;
    }

    /** Appends an item unless its name is taken. */
    method PushItem(item: Item) returns (fault: Option<AliasError>)
      modifies this
      ensures fault == if BindingName(item).Some? then DuplicateFault(old(items), BindingName(item).value) else None
      ensures items == if fault.None? then old(items) + [item] else old(items)
    {
      if BindingName(item).Some? {
        var taken := FindBinding(BindingName(item).value);
        if taken.Some? {
          return Some(DuplicateDeclaration);
        }
      }
      items := items + [item];
      return None;
    }

    /** A declaration keeps the list well built exactly when its name is free. */
    method PushDeclaration(name: Name, public: bool, shape: Shape) returns (fault: Option<AliasError>)
      requires Built(builtins, items)
      modifies this
      ensures Built(builtins, items)
      ensures fault.None? <==> Admits(builtins, old(items), Declared(name, public, shape))
      ensures items == if fault.None? then old(items) + [Declared(name, public, shape)] else old(items)
    {
      fault := PushItem(Declared(name, public, shape));
      BuiltAppend(builtins, old(items), Declared(name, public, shape));
    }

    static lemma BuiltAppend(builtins: set<Name>, items: seq<Item>, x: Item)
      requires Built(builtins, items)
      ensures Admits(builtins, items, x) ==> Built(builtins, items + [x])
    {
      assert (items + [x])[..|items|] == items;
    }

    /** Parses an alias whose paths are read: its checks in order, then the semicolon, then the push. */
    method ParseAliasItem(public: bool, destination: Path, target: Path, terminated: bool)
      returns (fault: Option<AliasError>)
      requires Built(builtins, items)
      modifies this
      ensures Built(builtins, items)
      ensures fault == AliasFault(builtins, old(items), Alias(public, destination, target), terminated)
      ensures items == if fault.None? then old(items) + [Alias(public, destination, target)] else old(items)
    {
      var item := Alias(public, destination, target);
      BuiltAppend(builtins, items, item);
      if destination.parent.Some? != target.parent.Some? {
        return Some(UnsatisfiedUse);
      }
      if !public {
        if destination.parent.Some? || destination.name == target.name {
          return Some(UnsatisfiedUse);
        }
        if target.name !in builtins {
          return Some(UnknownName);
        }
      } else if destination.parent.None? {
        if destination.name == target.name {
          return Some(DuplicateDeclaration);
        }
        var binding := FindBinding(target.name);
        if binding.None? {
          return Some(UnknownName);
        }
        if !items[binding.value].public {
          return Some(PrivateDeclaration);
        }
      } else {
        var destinationParent := ResolveRootBinding(destination.parent.value);
        var targetParent := ResolveRootBinding(target.parent.value);
        if destinationParent.None? || targetParent.None? {
          return Some(UnknownName);
        }
        if !items[destinationParent.value].public || !items[targetParent.value].public {
          return Some(PrivateDeclaration);
        }
        if destinationParent != targetParent {
          return Some(UnsatisfiedUse);
        }
        if destination.name == target.name {
          return Some(DuplicateDeclaration);
        }
        var existing := ResolveEnumChild(destinationParent.value, destination.name);
        if existing.Some? {
          return Some(DuplicateDeclaration);
        }
        var constructed := ResolveEnumChild(targetParent.value, target.name);
        if constructed.None? {
          return Some(UnknownName);
        }
      }
      if !terminated {
        return Some(Malformed);
      }
      fault := PushItem(item);
    }
  }
}
