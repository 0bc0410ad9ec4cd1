/** Pattern analysis: bindings, irrefutability and constructor coverage, and what patterns match. */
module Patterns {
  import opened Options
  import opened Syntax

  // ----- what a pattern matches -----

  predicate Matches(p: Pattern, v: Value)
    decreases p
  {
    match p
    case Wildcard => true
    case Binding(_) => true
    case StructPattern(fields) => v.Record? && forall i :: 0 <= i < |fields| ==> MatchesField(fields[i], v)
    case EnumPattern(tag, payloads) =>
      v.Tagged? && v.tag == tag && |payloads| == |v.payloads| &&
      forall i :: 0 <= i < |payloads| ==> Matches(payloads[i], v.payloads[i])
  }

  predicate MatchesField(f: FieldPattern, v: Value)
    requires v.Record?
    decreases f
  {
    f.index < |v.fields| && Matches(f.pattern, v.fields[f.index])
  }

  /** The values a matching pattern binds, in the order the binders are met. */
  function Bound(p: Pattern, v: Value): seq<Value>
    decreases p
  {
    match p
    case Wildcard => []
    case Binding(_) => [v]
    case StructPattern(fields) => if v.Record? then BoundFields(fields, 0, v.fields) else []
    case EnumPattern(_, payloads) => if v.Tagged? then BoundPayloads(payloads, 0, v.payloads) else []
  }

  function BoundFields(fields: seq<FieldPattern>, i: nat, vs: seq<Value>): seq<Value>
    decreases fields, |fields| - i
  {
    if i >= |fields| then [] else
    BoundField(fields[i], vs) + BoundFields(fields, i + 1, vs)
  }

  function BoundField(f: FieldPattern, vs: seq<Value>): seq<Value>
    decreases f
  {
    if f.index < |vs| then Bound(f.pattern, vs[f.index]) else []
  }

  function BoundPayloads(payloads: seq<Pattern>, i: nat, vs: seq<Value>): seq<Value>
    decreases payloads, |payloads| - i
  {
    if i >= |payloads| then [] else
    (if i < |vs| then Bound(payloads[i], vs[i]) else []) + BoundPayloads(payloads, i + 1, vs)
  }

  // ----- pattern analysis -----

  datatype BindingInfo = BindingInfo(name: string, t: Type)

  datatype Info = Info(bindings: seq<BindingInfo>, irrefutable: bool, tag: Option<nat>, covered: bool)

  /** Whether a binding list already uses a name. */
  predicate Binds(bindings: seq<BindingInfo>, name: string) {
    exists i :: 0 <= i < |bindings| && bindings[i].name == name
  }

  /** Analyses a pattern against the type it is matched at, extending the bindings found so far. */
  function AnalyzeNode(t: Type, p: Pattern, found: seq<BindingInfo>): Option<Info>
    decreases p
  {
    match p
    case Wildcard => Some(Info(found, true, None, false))
    case Binding(name) =>
      if Binds(found, name) then None
      else Some(Info(found + [BindingInfo(name, t)], true, None, false))
    case StructPattern(fields) =>
      if !t.StructType? then None else
      (match AnalyzeFields(t, fields, 0, found)
       case None => None
       case Some((bindings, all)) => Some(Info(bindings, all, None, false)))
    case EnumPattern(tag, payloads) =>
      if !t.EnumType? || tag >= |t.constructors| || |payloads| != |t.constructors[tag].payloads| then None else
      match AnalyzePayloads(t.constructors[tag].payloads, payloads, 0, found)
      case None => None
      case Some((bindings, all)) => Some(Info(bindings, |t.constructors| == 1 && all, Some(tag), all))
  }

  function AnalyzeFields(t: Type, fields: seq<FieldPattern>, i: nat, found: seq<BindingInfo>):
    Option<(seq<BindingInfo>, bool)>
    requires t.StructType?
    decreases fields, |fields| - i
  {
    if i >= |fields| then Some((found, true))
    else if exists j :: 0 <= j < i && fields[j].index == fields[i].index then None
    else
      match AnalyzeField(t, fields[i], found)
      case None => None
      case Some(info) =>
        match AnalyzeFields(t, fields, i + 1, info.bindings)
        case None => None
        case Some((bindings, all)) => Some((bindings, info.irrefutable && all))
  }

  function AnalyzeField(t: Type, f: FieldPattern, found: seq<BindingInfo>): Option<Info>
    requires t.StructType?
    decreases f
  {
    if f.index >= |t.fields| then None else AnalyzeNode(t.fields[f.index], f.pattern, found)
  }

  function AnalyzePayloads(ts: seq<Type>, payloads: seq<Pattern>, i: nat, found: seq<BindingInfo>):
    Option<(seq<BindingInfo>, bool)>
    requires |ts| == |payloads|
    decreases payloads, |payloads| - i
  {
    if i >= |payloads| then Some((found, true))
    else
      match AnalyzeNode(ts[i], payloads[i], found)
      case None => None
      case Some(info) =>
        match AnalyzePayloads(ts, payloads, i + 1, info.bindings)
        case None => None
        case Some((bindings, all)) => Some((bindings, info.irrefutable && all))
  }

  function Analyze(t: Type, p: Pattern): Option<Info> {
    AnalyzeNode(t, p, [])
  }

  // ----- soundness of the analysis -----

  lemma TagInRange(t: Type, p: Pattern)
    requires Analyze(t, p).Some? && Analyze(t, p).value.tag.Some?
    ensures t.EnumType? && Analyze(t, p).value.tag.value < |t.constructors|
  {
  }

  /** The values line up with the binding infos, one for one and well typed. */
  predicate BindingsTyped(infos: seq<BindingInfo>, vs: seq<Value>) {
    |infos| == |vs| && forall i :: 0 <= i < |vs| ==> HasType(vs[i], infos[i].t)
  }

  /**
   An irrefutable pattern matches every value of its type; a constructor reported as covered matches every
   value with that tag, and no value with another; a matching pattern binds exactly the reported names, in
   order, to values of the reported types.
   */
  lemma {:induction false} AnalysisSound(t: Type, p: Pattern, found: seq<BindingInfo>, v: Value)
    requires HasType(v, t) && AnalyzeNode(t, p, found).Some?
    ensures var info := AnalyzeNode(t, p, found).value;
            && found <= info.bindings
            && (info.irrefutable ==> Matches(p, v))
            && (info.tag.Some? ==> t.EnumType? && info.tag.value < |t.constructors| && v.Tagged?)
            && (info.tag.Some? && v.tag != info.tag.value ==> !Matches(p, v))
            && (info.tag.Some? && info.covered && v.tag == info.tag.value ==> Matches(p, v))
            && (Matches(p, v) ==> BindingsTyped(info.bindings[|found|..], Bound(p, v)))
    decreases p
  {
    match p
    case Wildcard =>
    case Binding(_) =>
    case StructPattern(fields) =>
      FieldsSound(t, fields, 0, found, v);
    case EnumPattern(tag, payloads) =>
      if v.tag == tag {
        PayloadsSound(t.constructors[tag], payloads, 0, found, v.payloads);
      } else {
        PayloadsExtend(t.constructors[tag].payloads, payloads, 0, found);
      }
  }

  lemma {:induction false} FieldsSound(t: Type, fields: seq<FieldPattern>, i: nat, found: seq<BindingInfo>, v: Value)
    requires t.StructType? && HasType(v, t) && i <= |fields| && AnalyzeFields(t, fields, i, found).Some?
    ensures var (bindings, all) := AnalyzeFields(t, fields, i, found).value;
            && found <= bindings
            && (all ==> forall j :: i <= j < |fields| ==> MatchesField(fields[j], v))
            && ((forall j :: i <= j < |fields| ==> MatchesField(fields[j], v)) ==>
                  BindingsTyped(bindings[|found|..], BoundFields(fields, i, v.fields)))
    decreases fields, |fields| - i
  {
    if i < |fields| {
      var f := fields[i];
      FieldSound(t, f, found, v);
      var next := AnalyzeField(t, f, found).value.bindings;
      FieldsSound(t, fields, i + 1, next, v);
      var (bindings, _) := AnalyzeFields(t, fields, i, found).value;
      assert bindings[|found|..] == next[|found|..] + bindings[|next|..];
      if forall j :: i <= j < |fields| ==> MatchesField(fields[j], v) {
        assert MatchesField(f, v);
      }
    }
  }

  lemma {:induction false} FieldSound(t: Type, f: FieldPattern, found: seq<BindingInfo>, v: Value)
    requires t.StructType? && HasType(v, t) && AnalyzeField(t, f, found).Some?
    ensures var info := AnalyzeField(t, f, found).value;
            && found <= info.bindings
            && (info.irrefutable ==> MatchesField(f, v))
            && (MatchesField(f, v) ==> BindingsTyped(info.bindings[|found|..], BoundField(f, v.fields)))
    decreases f
  {
    AnalysisSound(t.fields[f.index], f.pattern, found, v.fields[f.index]);
  }

  lemma {:induction false} PayloadsSound(
    c: Constructor, payloads: seq<Pattern>, i: nat, found: seq<BindingInfo>, vs: seq<Value>)
    requires |c.payloads| == |payloads| && HasTypes(vs, c)
    requires i <= |payloads| && AnalyzePayloads(c.payloads, payloads, i, found).Some?
    ensures var (bindings, all) := AnalyzePayloads(c.payloads, payloads, i, found).value;
            && found <= bindings
            && (all ==> forall j :: i <= j < |payloads| ==> Matches(payloads[j], vs[j]))
            && ((forall j :: i <= j < |payloads| ==> Matches(payloads[j], vs[j])) ==>
                  BindingsTyped(bindings[|found|..], BoundPayloads(payloads, i, vs)))
    decreases payloads, |payloads| - i
  {
    if i < |payloads| {
      AnalysisSound(c.payloads[i], payloads[i], found, vs[i]);
      var next := AnalyzeNode(c.payloads[i], payloads[i], found).value.bindings;
      PayloadsSound(c, payloads, i + 1, next, vs);
      var (bindings, _) := AnalyzePayloads(c.payloads, payloads, i, found).value;
      assert bindings[|found|..] == next[|found|..] + bindings[|next|..];
    }
  }

  lemma {:induction false} AnalysisExtends(t: Type, p: Pattern, found: seq<BindingInfo>)
    requires AnalyzeNode(t, p, found).Some?
    ensures found <= AnalyzeNode(t, p, found).value.bindings
    decreases p
  {
    match p
    case Wildcard =>
    case Binding(_) =>
    case StructPattern(fields) => FieldsExtend(t, fields, 0, found);
    case EnumPattern(tag, payloads) => PayloadsExtend(t.constructors[tag].payloads, payloads, 0, found);
  }

  lemma {:induction false} FieldsExtend(t: Type, fields: seq<FieldPattern>, i: nat, found: seq<BindingInfo>)
    requires t.StructType? && AnalyzeFields(t, fields, i, found).Some?
    ensures found <= AnalyzeFields(t, fields, i, found).value.0
    decreases fields, |fields| - i
  {
    if i < |fields| {
      FieldExtends(t, fields[i], found);
      FieldsExtend(t, fields, i + 1, AnalyzeField(t, fields[i], found).value.bindings);
    }
  }

  lemma {:induction false} FieldExtends(t: Type, f: FieldPattern, found: seq<BindingInfo>)
    requires t.StructType? && AnalyzeField(t, f, found).Some?
    ensures found <= AnalyzeField(t, f, found).value.bindings
    decreases f
  {
    AnalysisExtends(t.fields[f.index], f.pattern, found);
  }

  lemma {:induction false} PayloadsExtend(ts: seq<Type>, payloads: seq<Pattern>, i: nat, found: seq<BindingInfo>)
    requires |ts| == |payloads| && AnalyzePayloads(ts, payloads, i, found).Some?
    ensures found <= AnalyzePayloads(ts, payloads, i, found).value.0
    decreases payloads, |payloads| - i
  {
    if i < |payloads| {
      AnalysisExtends(ts[i], payloads[i], found);
      PayloadsExtend(ts, payloads, i + 1, AnalyzeNode(ts[i], payloads[i], found).value.bindings);
    }
  }
}
