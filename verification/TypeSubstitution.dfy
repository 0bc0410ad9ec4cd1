/** Substituting type arguments into a template's types. */
module TypeSubstitution {
  import opened Options

  type Name = seq<nat>

  type Unit = nat

  /**
   Types as the parser builds them. A named node carries the unit recorded as its lexical owner, if any;
   `Wrapped` covers pointer, reference, vector, box, option and mutable.
   */
  datatype Type =
    | Primitive(kind: nat)
    | Wrapped(wrapper: nat, inner: Type)
    | ResultOf(ok: Type, error: Type)
    | Function(parameters: seq<Type>, output: Type)
    | Named(name: Name, arguments: seq<Type>, owner: Option<Unit>)

  /** The argument bound to a parameter name: the first one. */
  function Bound(parameters: seq<Name>, arguments: seq<Type>, name: Name): (r: Option<Type>)
    requires |parameters| == |arguments|
    ensures r.Some? ==> r.value in arguments
  {
    if arguments == [] then None
    else if parameters[0] == name then Some(arguments[0])
    else Bound(parameters[1..], arguments[1..], name)
  }

  /** The unit a copied node belongs to: its own record when copying, then the given unit, then the active one. */
  function EffectiveOwner(t: Type, copying: bool, unit: Option<Unit>, active: Unit): Unit {
    if copying && t.Named? && t.owner.Some? then t.owner.value
    else if unit.Some? then unit.value
    else active
  }

  /** Deep copy: what substitution does when there are no arguments. */
  function Copy(t: Type, unit: Option<Unit>, active: Unit): Type {
    var owner := EffectiveOwner(t, true, unit, active);
    match t
    case Primitive(_) => t
    case Wrapped(w, inner) => Wrapped(w, Copy(inner, Some(owner), active))
    case ResultOf(ok, error) => ResultOf(Copy(ok, Some(owner), active), Copy(error, Some(owner), active))
    case Function(ps, output) => Function(CopyAll(ps, Some(owner), active), Copy(output, Some(owner), active))
    case Named(name, args, _) => Named(name, CopyAll(args, Some(owner), active), Some(owner))
  }

  function CopyAll(ts: seq<Type>, unit: Option<Unit>, active: Unit): (r: seq<Type>)
    ensures |r| == |ts| && forall i :: 0 <= i < |ts| ==> r[i] == Copy(ts[i], unit, active)
  {
    if ts == [] then [] else [Copy(ts[0], unit, active)] + CopyAll(ts[1..], unit, active)
  }

  /** Substitution as the compiler performs it: bound names become copies of their arguments, never rescanned. */
  function Substitute(t: Type, parameters: seq<Name>, arguments: seq<Type>, unit: Option<Unit>, active: Unit): Type
    requires |parameters| == |arguments|
    decreases t
  {
    if arguments == [] then Copy(t, unit, active)
    else
      var owner := Some(EffectiveOwner(t, false, unit, active));
      match t
      case Primitive(_) => t
      case Wrapped(w, inner) => Wrapped(w, Substitute(inner, parameters, arguments, owner, active))
      case ResultOf(ok, error) =>
        ResultOf(Substitute(ok, parameters, arguments, owner, active),
                 Substitute(error, parameters, arguments, owner, active))
      case Function(ps, output) =>
        Function(SubstituteAll(ps, parameters, arguments, owner, active),
                 Substitute(output, parameters, arguments, owner, active))
      case Named(name, args, _) =>
        if args == [] && Bound(parameters, arguments, name).Some? then
          Copy(Bound(parameters, arguments, name).value, owner, active)
        else Named(name, SubstituteAll(args, parameters, arguments, owner, active), owner)
  }

  function SubstituteAll(ts: seq<Type>, parameters: seq<Name>, arguments: seq<Type>, unit: Option<Unit>, active: Unit)
    : (r: seq<Type>)
    requires |parameters| == |arguments|
    ensures |r| == |ts| && forall i :: 0 <= i < |ts| ==> r[i] == Substitute(ts[i], parameters, arguments, unit, active)
    decreases ts
  {
    if ts == [] then []
    else [Substitute(ts[0], parameters, arguments, unit, active)]
         + SubstituteAll(ts[1..], parameters, arguments, unit, active)
  }

  // ----- simultaneous substitution -----

  /** The textbook operation: every bound name replaced at once, arguments taken verbatim. */
  function Simultaneous(t: Type, parameters: seq<Name>, arguments: seq<Type>): Type
    requires |parameters| == |arguments|
    decreases t
  {
    match t
    case Primitive(_) => t
    case Wrapped(w, inner) => Wrapped(w, Simultaneous(inner, parameters, arguments))
    case ResultOf(ok, error) =>
      ResultOf(Simultaneous(ok, parameters, arguments), Simultaneous(error, parameters, arguments))
    case Function(ps, output) =>
      Function(SimultaneousAll(ps, parameters, arguments), Simultaneous(output, parameters, arguments))
    case Named(name, args, owner) =>
      if args == [] && Bound(parameters, arguments, name).Some? then Bound(parameters, arguments, name).value
      else Named(name, SimultaneousAll(args, parameters, arguments), owner)
  }

  function SimultaneousAll(ts: seq<Type>, parameters: seq<Name>, arguments: seq<Type>): (r: seq<Type>)
    requires |parameters| == |arguments|
    ensures |r| == |ts| && forall i :: 0 <= i < |ts| ==> r[i] == Simultaneous(ts[i], parameters, arguments)
    decreases ts
  {
    if ts == [] then []
    else [Simultaneous(ts[0], parameters, arguments)] + SimultaneousAll(ts[1..], parameters, arguments)
  }

  /** All named nodes have a recorded owner. */
  predicate Owned(t: Type) {
    match t
    case Primitive(_) => true
    case Wrapped(_, inner) => Owned(inner)
    case ResultOf(ok, error) => Owned(ok) && Owned(error)
    case Function(ps, output) => OwnedAll(ps) && Owned(output)
    case Named(_, args, owner) => owner.Some? && OwnedAll(args)
  }

  predicate OwnedAll(ts: seq<Type>) {
    ts == [] || (Owned(ts[0]) && OwnedAll(ts[1..]))
  }

  /** The same type with every named node recorded under one unit. */
  function Tagged(t: Type, unit: Unit): Type {
    match t
    case Primitive(_) => t
    case Wrapped(w, inner) => Wrapped(w, Tagged(inner, unit))
    case ResultOf(ok, error) => ResultOf(Tagged(ok, unit), Tagged(error, unit))
    case Function(ps, output) => Function(TaggedAll(ps, unit), Tagged(output, unit))
    case Named(name, args, _) => Named(name, TaggedAll(args, unit), Some(unit))
  }

  function TaggedAll(ts: seq<Type>, unit: Unit): (r: seq<Type>)
    ensures |r| == |ts| && forall i :: 0 <= i < |ts| ==> r[i] == Tagged(ts[i], unit)
  {
    if ts == [] then [] else [Tagged(ts[0], unit)] + TaggedAll(ts[1..], unit)
  }

  /** Copying an owned type gives back that very type, owners included. */
  lemma {:induction false} CopyOfOwned(t: Type, unit: Option<Unit>, active: Unit)
    requires Owned(t)
    ensures Copy(t, unit, active) == t
    decreases t
  {
    var owner := Some(EffectiveOwner(t, true, unit, active));
    match t {
      case Primitive(_) =>
      case Wrapped(_, inner) => CopyOfOwned(inner, owner, active);
      case ResultOf(ok, error) =>
        CopyOfOwned(ok, owner, active);
        CopyOfOwned(error, owner, active);
      case Function(ps, output) =>
        CopyAllOfOwned(t, ps, owner, active);
        CopyOfOwned(output, owner, active);
      case Named(_, args, _) => CopyAllOfOwned(t, args, owner, active);
    }
  }

  lemma {:induction false} CopyAllOfOwned(of: Type, ts: seq<Type>, unit: Option<Unit>, active: Unit)
    requires OwnedAll(ts)
    requires forall k :: 0 <= k < |ts| ==> ts[k] < of
    ensures CopyAll(ts, unit, active) == ts
    decreases of, |ts|
  {
    if ts != [] {
      CopyOfOwned(ts[0], unit, active);
      CopyAllOfOwned(of, ts[1..], unit, active);
    }
  }

  /** Every copy is owned. */
  lemma {:induction false} CopyIsOwned(t: Type, unit: Option<Unit>, active: Unit)
    ensures Owned(Copy(t, unit, active))
    decreases t
  {
    var owner := Some(EffectiveOwner(t, true, unit, active));
    match t {
      case Primitive(_) =>
      case Wrapped(_, inner) => CopyIsOwned(inner, owner, active);
      case ResultOf(ok, error) =>
        CopyIsOwned(ok, owner, active);
        CopyIsOwned(error, owner, active);
      case Function(ps, output) =>
        CopyAllIsOwned(t, ps, owner, active);
        CopyIsOwned(output, owner, active);
      case Named(_, args, _) => CopyAllIsOwned(t, args, owner, active);
    }
  }

  lemma {:induction false} CopyAllIsOwned(of: Type, ts: seq<Type>, unit: Option<Unit>, active: Unit)
    requires forall k :: 0 <= k < |ts| ==> ts[k] < of
    ensures OwnedAll(CopyAll(ts, unit, active))
    decreases of, |ts|
  {
    if ts != [] {
      CopyIsOwned(ts[0], unit, active);
      CopyAllIsOwned(of, ts[1..], unit, active);
    }
  }

  lemma {:induction false} BoundIsOwned(parameters: seq<Name>, arguments: seq<Type>, name: Name)
    requires |parameters| == |arguments| && OwnedAll(arguments)
    ensures Bound(parameters, arguments, name).Some? ==> Owned(Bound(parameters, arguments, name).value)
  {
    if arguments != [] {
      BoundIsOwned(parameters[1..], arguments[1..], name);
    }
  }

  /**
   Instantiating a template is simultaneous substitution: the template's own nodes belong to the template's
   unit, and arguments appear verbatim, keeping the unit they were written in.
   */
  lemma {:induction false} SubstituteIsSimultaneous(t: Type, parameters: seq<Name>, arguments: seq<Type>,
                                                     unit: Unit, active: Unit)
    requires |parameters| == |arguments| > 0 && OwnedAll(arguments)
    ensures Substitute(t, parameters, arguments, Some(unit), active)
            == Simultaneous(Tagged(t, unit), parameters, arguments)
    decreases t
  {
    match t {
      case Primitive(_) =>
      case Wrapped(_, inner) => SubstituteIsSimultaneous(inner, parameters, arguments, unit, active);
      case ResultOf(ok, error) =>
        SubstituteIsSimultaneous(ok, parameters, arguments, unit, active);
        SubstituteIsSimultaneous(error, parameters, arguments, unit, active);
      case Function(ps, output) =>
        SubstituteAllIsSimultaneous(t, ps, parameters, arguments, unit, active);
        SubstituteIsSimultaneous(output, parameters, arguments, unit, active);
      case Named(name, args, _) =>
        BoundIsOwned(parameters, arguments, name);
        if args == [] && Bound(parameters, arguments, name).Some? {
          CopyOfOwned(Bound(parameters, arguments, name).value, Some(unit), active);
        } else {
          SubstituteAllIsSimultaneous(t, args, parameters, arguments, unit, active);
        }
    }
  }

  lemma {:induction false} SubstituteAllIsSimultaneous(of: Type, ts: seq<Type>, parameters: seq<Name>,
                                                        arguments: seq<Type>, unit: Unit, active: Unit)
    requires |parameters| == |arguments| > 0 && OwnedAll(arguments)
    requires forall k :: 0 <= k < |ts| ==> ts[k] < of
    ensures SubstituteAll(ts, parameters, arguments, Some(unit), active)
            == SimultaneousAll(TaggedAll(ts, unit), parameters, arguments)
    decreases of, |ts|
  {
    if ts != [] {
      SubstituteIsSimultaneous(ts[0], parameters, arguments, unit, active);
      SubstituteAllIsSimultaneous(of, ts[1..], parameters, arguments, unit, active);
      assert TaggedAll(ts, unit)[1..] == TaggedAll(ts[1..], unit);
    }
  }

  /** Looking a name up in two lists of bindings, one after the other. */
  lemma {:induction false} BoundAppends(ps: seq<Name>, xs: seq<Type>, qs: seq<Name>, ys: seq<Type>, name: Name)
    requires |ps| == |xs| && |qs| == |ys|
    ensures Bound(ps + qs, xs + ys, name) ==
            if Bound(ps, xs, name).Some? then Bound(ps, xs, name) else Bound(qs, ys, name)
  {
    if ps == [] {
      assert ps + qs == qs && xs + ys == ys;
    } else {
      assert (ps + qs)[1..] == ps[1..] + qs && (xs + ys)[1..] == xs[1..] + ys;
      BoundAppends(ps[1..], xs[1..], qs, ys, name);
    }
  }

  lemma {:induction false} BoundMaps(ps: seq<Name>, xs: seq<Type>, qs: seq<Name>, ys: seq<Type>, name: Name)
    requires |ps| == |xs| && |qs| == |ys|
    ensures Bound(ps, SimultaneousAll(xs, qs, ys), name) ==
            match Bound(ps, xs, name) case None => None case Some(x) => Some(Simultaneous(x, qs, ys))
  {
    if xs != [] {
      assert SimultaneousAll(xs, qs, ys)[1..] == SimultaneousAll(xs[1..], qs, ys);
      BoundMaps(ps[1..], xs[1..], qs, ys, name);
    }
  }

  /** The substitution lemma: substituting twice is substituting once, with the second applied to the arguments. */
  lemma {:induction false} SubstitutionComposes(t: Type, ps: seq<Name>, xs: seq<Type>, qs: seq<Name>, ys: seq<Type>)
    requires |ps| == |xs| && |qs| == |ys|
    ensures Simultaneous(Simultaneous(t, ps, xs), qs, ys)
            == Simultaneous(t, ps + qs, SimultaneousAll(xs, qs, ys) + ys)
    decreases t
  {
    match t {
      case Primitive(_) =>
      case Wrapped(_, inner) => SubstitutionComposes(inner, ps, xs, qs, ys);
      case ResultOf(ok, error) =>
        SubstitutionComposes(ok, ps, xs, qs, ys);
        SubstitutionComposes(error, ps, xs, qs, ys);
      case Function(parameters, output) =>
        SubstitutionsCompose(t, parameters, ps, xs, qs, ys);
        SubstitutionComposes(output, ps, xs, qs, ys);
      case Named(name, args, owner) =>
        BoundAppends(ps, SimultaneousAll(xs, qs, ys), qs, ys, name);
        BoundMaps(ps, xs, qs, ys, name);
        SubstitutionsCompose(t, args, ps, xs, qs, ys);
    }
  }

  lemma {:induction false} SubstitutionsCompose(of: Type, ts: seq<Type>, ps: seq<Name>, xs: seq<Type>,
                                                 qs: seq<Name>, ys: seq<Type>)
    requires |ps| == |xs| && |qs| == |ys|
    requires forall k :: 0 <= k < |ts| ==> ts[k] < of
    ensures SimultaneousAll(SimultaneousAll(ts, ps, xs), qs, ys)
            == SimultaneousAll(ts, ps + qs, SimultaneousAll(xs, qs, ys) + ys)
    decreases of, |ts|
  {
    if ts != [] {
      SubstitutionComposes(ts[0], ps, xs, qs, ys);
      SubstitutionsCompose(of, ts[1..], ps, xs, qs, ys);
      assert SimultaneousAll(ts, ps, xs)[1..] == SimultaneousAll(ts[1..], ps, xs);
    }
  }
}
