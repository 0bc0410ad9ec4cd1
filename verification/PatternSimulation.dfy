/** Emitted pattern tests decide matching, and emitted bindings hold the matched parts. */
module PatternSimulation {
  import opened MachineIntegers
  import opened Options
  import opened Syntax
  import opened Patterns
  import opened Source
  import opened Machine
  import opened Lowering
  import opened LoweringFrame
  import opened Simulation
  import opened ExprSimulation

  // ----- places -----

  /** The value at a place whose cell existed at `s`. */
  ghost predicate Stored(place: Place, s: State, c: Config, v: Value) {
    place.cell < Cells(s) && ReadPlace(c.cells, place) == Some(v)
  }

  lemma StoredLater(place: Place, s: State, c: Config, v: Value, d: Config, t: State)
    requires Stored(place, s, c, v) && Kept(s, c, d) && Cells(s) <= Cells(t)
    ensures Stored(place, t, d, v)
  {
  }

  lemma StoredThrough(place: Place, v: Value, g: Graph, s: State, c: Config, t: State, d: Config)
    requires Stored(place, s, c, v) && Goes(g, s, c, t, d)
    ensures Stored(place, t, d, v)
  {
  }

  lemma StoredField(place: Place, s: State, c: Config, v: Value, i: nat)
    requires Stored(place, s, c, v) && v.Record? && i < |v.fields|
    ensures Stored(FieldPlace(place, i), s, c, v.fields[i])
  {
    ProjectField(c.cells[place.cell].value, place.path, i);
  }

  /** A payload is only ever copied out of a value that carries its tag. */
  lemma ExtractGoes(g: Graph, s: State, c: Config, place: Place, tag: nat, index: nat, v: Value) returns (d: Config)
    requires Ready(g, s, c) && Completes(g, ExtractPayload(s, place, tag, index))
    requires Stored(place, s, c, v) && v.Tagged? && v.tag == tag && index < |v.payloads|
    ensures Goes(g, s, c, ExtractPayload(s, place, tag, index), d)
    ensures Stored(Place(Cells(s), []), ExtractPayload(s, place, tag, index), d, v.payloads[index])
  {
    d := FreshStoreGoes(g, s, c, CopyPayload(Cells(s), place, tag, index), v.payloads[index]);
  }

  // ----- tests -----

  /** Closing a tag test is closing a short-circuit conjunction. */
  lemma CloseTagTestIs(before: State, s: State, c: Operand)
    requires Open(s)
    ensures CloseTagTest(before, s, c) == CloseLogic(before, s, c)
  {
  }

  lemma TagTestStates(g: Graph, s: State, tag: nat, place: Place, s2: State, b: Operand)
    requires Open(s) && Plain(OpenTagTest(s, tag, place), s2) && Completes(g, CloseTagTest(s, s2, b).s)
    ensures var u := OpenTagTest(s, tag, place);
            && Open(u) && Open(s2) && Completes(g, s) && Completes(g, u) && Completes(g, s2)
            && s2.at != |s.blocks| + 1 < |s2.blocks| && s2.blocks[|s.blocks| + 1] == Block([], None)
            && Cells(s) < Cells(s2) && s.registers <= s2.registers
  {
    var u := OpenTagTest(s, tag, place);
    OpenTagTestFrame(s, tag, place);
    assert u.blocks[|s.blocks| + 1] == Block([], None);
    var stored := Put(s2, Store(Cells(s), b));
    assert Completes(g, stored);
    assert Completes(g, s2) by {
      assert s2.blocks[s2.at].body <= stored.blocks[s2.at].body;
    }
    CompletesEarlier(g, u, s2, {s2.at});
    CompletesEarlier(g, s, u, {|s.blocks|, |s.blocks| + 1});
  }

  /** The two instructions that compare the stored tag. */
  function TagCompared(s: State, tag: nat, place: Place): State {
    var s1 := Lowering.Define(s, LoadTag(s.registers, place));
    Lowering.Define(s1, ICmp(s.registers + 1, EQ, Register(s.registers), Constant(Bits(64, tag))))
  }

  lemma TagCompareGoes(g: Graph, s: State, c: Config, tag: nat, place: Place, v: Value) returns (d: Config)
    requires Ready(g, s, c) && Stored(place, s, c, v) && v.Tagged?
    requires Completes(g, Lowering.Define(s, LoadTag(s.registers, place))) && Completes(g, TagCompared(s, tag, place))
    ensures Goes(g, s, c, TagCompared(s, tag, place), d)
    ensures Operate(Register(s.registers + 1), d.registers) == Some(Bool(v.tag == tag))
  {
    hide Goes, Completes, Lowering.Define;
    var r := s.registers;
    var c1 := DefineGoes(g, s, c, LoadTag(r, place), Bits(64, v.tag));
    d := CompareNext(g, s, c, Lowering.Define(s, LoadTag(r, place)), c1, EQ, Register(r), Constant(Bits(64, tag)),
                     Bits(64, v.tag), Bits(64, tag), Bool(v.tag == tag));
  }

  /** The payload block is entered exactly when the value carries the tag. */
  lemma TagTestEnters(g: Graph, s: State, c: Config, tag: nat, place: Place, v: Value) returns (d: Config)
    requires Ready(g, s, c) && Completes(g, OpenTagTest(s, tag, place)) && Stored(place, s, c, v) && v.Tagged?
    ensures Cells(s) in d.cells && d.cells[Cells(s)] == Some(Bool(false)) && Kept(s, c, d)
    ensures v.tag == tag ==> Goes(g, s, c, OpenTagTest(s, tag, place), d)
    ensures v.tag != tag ==> Reaches(g, c, 0, d) && Backed(g, d) && d.block == |s.blocks| + 1 && d.pc == 0
  {
    hide Completes, Lowering.Define, TagCompared, Backed, Put, Allocate, OpenTagTest, Stored;
    TagTestCompleted(g, s, tag, place);
    var s2 := TagCompared(s, tag, place);
    var c2 := TagCompareGoes(g, s, c, tag, place, v);
    var c3 := FreshStoreGoes(g, s2, c2, Store(Cells(s2), Constant(Bool(false))), Bool(false));
    d := TagTestBranches(g, s, tag, place, c3, v.tag == tag);
    ReachesThrough(g, c, 0, c2, 0, c3);
    ReachesThrough(g, c, 0, c3, 1, d);
    ReachesFewer(g, c, 1, 0, d);
  }

  lemma TagTestCompleted(g: Graph, s: State, tag: nat, place: Place)
    requires Open(s) && Completes(g, OpenTagTest(s, tag, place))
    ensures Completes(g, Lowering.Define(s, LoadTag(s.registers, place)))
    ensures var s2 := TagCompared(s, tag, place);
            var s3 := Put(Allocate(s2), Store(Cells(s2), Constant(Bool(false))));
            && Completes(g, s2) && Open(s2) && Completes(g, s3) && s2.at == s3.at == s.at
            && Cells(s2) == Cells(s) && s2.registers == s.registers + 2
            && s3.blocks[s.at].body == OpenTagTest(s, tag, place).blocks[s.at].body
    ensures var u := OpenTagTest(s, tag, place);
            && u.at == |s.blocks| && u.blocks[u.at].body == [] && s.registers <= u.registers && Cells(s) <= Cells(u)
  {
    var r, matched := s.registers, |s.blocks|;
    var s1 := Lowering.Define(s, LoadTag(r, place));
    var s2 := TagCompared(s, tag, place);
    var s3 := Put(Allocate(s2), Store(Cells(s2), Constant(Bool(false))));
    var u := OpenTagTest(s, tag, place);
    assert u.blocks[s.at] == Block(s3.blocks[s.at].body, Some(CondBr(Register(r + 1), matched, matched + 1)));
    assert s1.blocks[s.at].body <= s2.blocks[s.at].body <= s3.blocks[s.at].body;
    assert s2.blocks[0].body <= s3.blocks[0].body;
  }

  lemma TagTestBranches(g: Graph, s: State, tag: nat, place: Place, c: Config, b: bool) returns (d: Config)
    requires Open(s) && Completes(g, OpenTagTest(s, tag, place)) && Backed(g, c)
    requires c.block == s.at && c.pc == |OpenTagTest(s, tag, place).blocks[s.at].body|
    requires Operate(Register(s.registers + 1), c.registers) == Some(Bool(b))
    ensures Reaches(g, c, 1, d) && d == c.(block := if b then |s.blocks| else |s.blocks| + 1, pc := 0) && Backed(g, d)
  {
    var u := OpenTagTest(s, tag, place);
    assert u.blocks[s.at].end == Some(CondBr(Register(s.registers + 1), |s.blocks|, |s.blocks| + 1));
    d := c.(block := if b then |s.blocks| else |s.blocks| + 1, pc := 0);
    assert g[s.at] == u.blocks[s.at];
    assert Step(g, c) == Running(d);
    ReachesStep(g, c, d);
  }

  lemma ConjoinGoes(g: Graph, s: State, c: Config, t: State, d: Config, a: Operand, b: Operand, x: bool, y: bool)
    returns (e: Config)
    requires Goes(g, s, c, t, d) && Open(t) && Completes(g, Conjoin(t, a, b).s)
    requires Holds(a, t, d, Bool(x)) && Holds(b, t, d, Bool(y))
    ensures var r := Conjoin(t, a, b); Goes(g, s, c, r.s, e) && Holds(r.a, r.s, e, Bool(x && y))
  {
    hide Goes, Completes, ApplyBinary;
    AndOfBools(x, y);
    e := BinaryNext(g, s, c, t, d, IAnd, a, b, Bool(x), Bool(y), Bool(x && y));
  }

  ghost predicate Tests(g: Graph, s: State, c: Config, r: Emission, d: Config, b: bool)
    requires r.Emitted?
  {
    Goes(g, s, c, r.s, d) && Holds(r.a, r.s, d, Bool(b))
  }

  lemma TestsAfter(g: Graph, s: State, c: Config, t: State, d: Config, r: Emission, e: Config, b: bool)
    requires r.Emitted? && Goes(g, s, c, t, d) && Tests(g, t, d, r, e, b)
    ensures Tests(g, s, c, r, e, b)
  {
    GoesThrough(g, s, c, t, d, r.s, e);
  }

  /**
   The emitted test of a pattern decides whether the stored value matches, for every well-typed value; no step
   of it is undefined, so no payload is read under another constructor's tag.
   */
  lemma {:induction false} ConditionGoes(
    g: Graph, s: State, c: Config, p: Pattern, place: Place, t: Type, found: seq<BindingInfo>, v: Value)
    returns (d: Config)
    requires Ready(g, s, c) && EmitCondition(s, p, place).Emitted? && Completes(g, EmitCondition(s, p, place).s)
    requires Stored(place, s, c, v) && HasType(v, t) && AnalyzeNode(t, p, found).Some?
    ensures Tests(g, s, c, EmitCondition(s, p, place), d, Matches(p, v))
    decreases p
  {
    hide Completes, Goes, Touches, Backed, AtEnd, Stored, OpenTagTest, CloseTagTest, EmitFieldConditions, Open;
    match p
    case Wildcard =>
      GoesNowhere(g, s, c);
      d := c;
    case Binding(_) =>
      GoesNowhere(g, s, c);
      d := c;
    case StructPattern(fields) =>
      GoesNowhere(g, s, c);
      d := FieldConditionsGo(g, s, c, fields, 0, place, Constant(Bool(true)), true, t, found, v);
    case EnumPattern(tag, payloads) => d := TagTestGoes(g, s, c, tag, payloads, place, t, found, v);
  }

  lemma {:induction false} FieldConditionsGo(
    g: Graph, s: State, c: Config, fields: seq<FieldPattern>, i: nat, place: Place, acc: Operand, x: bool, t: Type,
    found: seq<BindingInfo>, v: Value)
    returns (d: Config)
    requires Ready(g, s, c) && Holds(acc, s, c, Bool(x)) && i <= |fields|
    requires EmitFieldConditions(s, fields, i, place, acc).Emitted?
    requires Completes(g, EmitFieldConditions(s, fields, i, place, acc).s)
    requires Stored(place, s, c, v) && t.StructType? && HasType(v, t) && AnalyzeFields(t, fields, i, found).Some?
    ensures Tests(g, s, c, EmitFieldConditions(s, fields, i, place, acc), d,
                  x && forall j :: i <= j < |fields| ==> MatchesField(fields[j], v))
    decreases fields, |fields| - i
  {
    hide Completes, Goes, Touches, Backed, AtEnd, Stored, Conjoin, EmitFieldCondition, Open, MatchesField, Plain;
    GoesNowhere(g, s, c);
    if i == |fields| {
      d := c;
    } else {
      var f := fields[i];
      EmitFieldConditionFrame(s, f, place);
      var r := EmitFieldCondition(s, f, place);
      var r2 := Conjoin(r.s, acc, r.a);
      ConjoinFrame(r.s, acc, r.a);
      EmitFieldConditionsFrame(r2.s, fields, i + 1, place, r2.a);
      var last := EmitFieldConditions(r2.s, fields, i + 1, place, r2.a);
      assert last == EmitFieldConditions(s, fields, i, place, acc);
      PlainEarlier(g, r2.s, last.s);
      PlainEarlier(g, r.s, r2.s);
      var y := MatchesField(f, v);
      var d1 := FieldConditionGoes(g, s, c, f, place, t, found, v);
      HoldsThrough(acc, Bool(x), g, s, c, r.s, d1);
      var d2 := ConjoinGoes(g, s, c, r.s, d1, acc, r.a, x, y);
      ReadyThere(g, s, c, r2.s, d2);
      StoredThrough(place, v, g, s, c, r2.s, d2);
      d := FieldConditionsGo(g, r2.s, d2, fields, i + 1, place, r2.a, x && y, t, AnalyzeField(t, f, found).value.bindings, v);
      TestsAfter(g, s, c, r2.s, d2, last, d, x && y && forall j :: i + 1 <= j < |fields| ==> MatchesField(fields[j], v));
    }
  }

  lemma ConjoinFrame(s: State, a: Operand, b: Operand)
    requires Open(s)
    ensures Conjoin(s, a, b).Emitted? && ValueFrame(s, Conjoin(s, a, b))
  {
    DefineFrame(s, Binary(s.registers, IAnd, a, b));
  }

  lemma {:induction false} FieldConditionGoes(
    g: Graph, s: State, c: Config, f: FieldPattern, place: Place, t: Type, found: seq<BindingInfo>, v: Value)
    returns (d: Config)
    requires Ready(g, s, c)
    requires EmitFieldCondition(s, f, place).Emitted? && Completes(g, EmitFieldCondition(s, f, place).s)
    requires Stored(place, s, c, v) && t.StructType? && HasType(v, t) && AnalyzeField(t, f, found).Some?
    ensures Tests(g, s, c, EmitFieldCondition(s, f, place), d, MatchesField(f, v))
    decreases f
  {
    hide Completes, Goes, Touches, Backed, AtEnd, Stored, Open, EmitCondition;
    StoredField(place, s, c, v, f.index);
    d := ConditionGoes(g, s, c, f.pattern, FieldPlace(place, f.index), t.fields[f.index], found, v.fields[f.index]);
  }

  lemma {:induction false} PayloadConditionsGo(
    g: Graph, s: State, c: Config, payloads: seq<Pattern>, i: nat, place: Place, tag: nat, acc: Operand, x: bool,
    k: Constructor, found: seq<BindingInfo>, v: Value)
    returns (d: Config)
    requires Ready(g, s, c) && Holds(acc, s, c, Bool(x)) && i <= |payloads|
    requires EmitPayloadConditions(s, payloads, i, place, tag, acc).Emitted?
    requires Completes(g, EmitPayloadConditions(s, payloads, i, place, tag, acc).s)
    requires Stored(place, s, c, v) && v.Tagged? && v.tag == tag && HasTypes(v.payloads, k)
    requires |k.payloads| == |payloads| && AnalyzePayloads(k.payloads, payloads, i, found).Some?
    ensures Tests(g, s, c, EmitPayloadConditions(s, payloads, i, place, tag, acc), d,
                  x && forall j :: i <= j < |payloads| ==> Matches(payloads[j], v.payloads[j]))
    decreases payloads, |payloads| - i
  {
    hide Completes, Goes, Touches, Backed, AtEnd, Stored, Conjoin, EmitCondition, Open, Matches, Plain, ExtractPayload;
    GoesNowhere(g, s, c);
    if i == |payloads| {
      d := c;
    } else {
      var s0, q := ExtractPayload(s, place, tag, i), Place(Cells(s), []);
      ExtractFrame(s, place, tag, i);
      EmitConditionFrame(s0, payloads[i], q);
      var r := EmitCondition(s0, payloads[i], q);
      var r2 := Conjoin(r.s, acc, r.a);
      ConjoinFrame(r.s, acc, r.a);
      EmitPayloadConditionsFrame(r2.s, payloads, i + 1, place, tag, r2.a);
      var last := EmitPayloadConditions(r2.s, payloads, i + 1, place, tag, r2.a);
      assert last == EmitPayloadConditions(s, payloads, i, place, tag, acc);
      PlainEarlier(g, r2.s, last.s);
      PlainEarlier(g, r.s, r2.s);
      PlainEarlier(g, s0, r.s);
      var y := Matches(payloads[i], v.payloads[i]);
      var d0 := ExtractGoes(g, s, c, place, tag, i, v);
      ReadyThere(g, s, c, s0, d0);
      var d1 := ConditionGoes(g, s0, d0, payloads[i], q, k.payloads[i], found, v.payloads[i]);
      GoesThrough(g, s, c, s0, d0, r.s, d1);
      HoldsThrough(acc, Bool(x), g, s, c, r.s, d1);
      var d2 := ConjoinGoes(g, s, c, r.s, d1, acc, r.a, x, y);
      ReadyThere(g, s, c, r2.s, d2);
      StoredThrough(place, v, g, s, c, r2.s, d2);
      var next := AnalyzeNode(k.payloads[i], payloads[i], found).value.bindings;
      d := PayloadConditionsGo(g, r2.s, d2, payloads, i + 1, place, tag, r2.a, x && y, k, next, v);
      TestsAfter(g, s, c, r2.s, d2, last, d,
                 x && y && forall j :: i + 1 <= j < |payloads| ==> Matches(payloads[j], v.payloads[j]));
    }
  }

  lemma {:induction false} TagTestGoes(
    g: Graph, s: State, c: Config, tag: nat, payloads: seq<Pattern>, place: Place, t: Type,
    found: seq<BindingInfo>, v: Value)
    returns (d: Config)
    requires var p := EnumPattern(tag, payloads);
             Ready(g, s, c) && EmitCondition(s, p, place).Emitted? && Completes(g, EmitCondition(s, p, place).s)
    requires Stored(place, s, c, v) && HasType(v, t) && AnalyzeNode(t, EnumPattern(tag, payloads), found).Some?
    ensures Tests(g, s, c, EmitCondition(s, EnumPattern(tag, payloads), place), d, Matches(EnumPattern(tag, payloads), v))
    decreases payloads, |payloads| + 1
  {
    hide Completes, Goes, Touches, Backed, AtEnd, Stored, OpenTagTest, CloseTagTest, EmitPayloadConditions, Open, Plain, CloseLogic, Kept;
    var u := OpenTagTest(s, tag, place);
    var r := EmitPayloadConditions(u, payloads, 0, place, tag, Constant(Bool(true)));
    OpenTagTestFrame(s, tag, place);
    EmitPayloadConditionsFrame(u, payloads, 0, place, tag, Constant(Bool(true)));
    TagTestStates(g, s, tag, place, r.s, r.a);
    CloseTagTestIs(s, r.s, r.a);
    var d1 := TagTestEnters(g, s, c, tag, place, v);
    if v.tag == tag {
      ReadyThere(g, s, c, u, d1);
      StoredThrough(place, v, g, s, c, u, d1);
      var d2 := PayloadConditionsGo(g, u, d1, payloads, 0, place, tag, Constant(Bool(true)), true, t.constructors[tag], found, v);
      d := TagTestCloses(g, s, c, u, d1, r.s, d2, r.a, Matches(EnumPattern(tag, payloads), v));
    } else {
      d := LogicReloads(g, s, c, r.s, r.a, false, d1);
    }
  }

  lemma TagTestCloses(g: Graph, s: State, c: Config, u: State, d1: Config, s2: State, d2: Config, b: Operand, y: bool)
    returns (e: Config)
    requires Goes(g, s, c, u, d1) && Cells(s) in d1.cells && Goes(g, u, d1, s2, d2) && Holds(b, s2, d2, Bool(y))
    requires Open(s2) && Completes(g, CloseLogic(s, s2, b).s)
    requires |s.blocks| + 1 < |s2.blocks| && s2.blocks[|s.blocks| + 1] == Block([], None) && s2.at != |s.blocks| + 1
    requires s.registers <= s2.registers && Cells(s) < Cells(s2)
    ensures var r := CloseLogic(s, s2, b); Goes(g, s, c, r.s, e) && Holds(r.a, r.s, e, Bool(y))
  {
    hide CloseLogic, Touches, Completes;
    GoesThrough(g, s, c, u, d1, s2, d2);
    var d3 := LogicStores(g, s, s2, d2, b, y);
    ReachesThrough(g, c, 0, d2, 0, d3);
    e := LogicReloads(g, s, c, s2, b, y, d3);
  }

  // ----- bindings -----

  /** The run has reached `t` with the slots `bound` added to the source stack `env`. */
  ghost predicate Binds(g: Graph, s: State, c: Config, env: Env, t: State, d: Config, bound: Env) {
    Goes(g, s, c, t, d) && LocalsOk(t) && Matched(env + bound, t.locals, d)
  }

  lemma BindsThrough(
    g: Graph, s: State, c: Config, env: Env, t: State, d: Config, b1: Env, u: State, e: Config, b2: Env)
    requires Binds(g, s, c, env, t, d, b1) && Binds(g, t, d, env + b1, u, e, b2)
    ensures Binds(g, s, c, env, u, e, b1 + b2)
  {
    GoesThrough(g, s, c, t, d, u, e);
    assert env + b1 + b2 == env + (b1 + b2);
  }

  lemma BindingGoes(g: Graph, s: State, c: Config, x: string, place: Place, t: Type, v: Value, env: Env)
    returns (d: Config)
    requires Ready(g, s, c) && LocalsOk(s) && Matched(env, s.locals, c) && Stored(place, s, c, v)
    requires Completes(g, EmitBind(s, Binding(x), place))
    ensures Binds(g, s, c, env, EmitBind(s, Binding(x), place), d, [Slot(x, t, Some(v))])
  {
    hide Touches;
    var s1 := AddLocal(s, x);
    var i := Load(s.registers, place);
    var s2 := Lowering.Define(s1, i);
    var u := Put(s2, Store(Cells(s), Register(s.registers)));
    assert Completes(g, s2) by {
      assert s2.blocks[s.at].body <= u.blocks[s.at].body;
    }
    var d1 := DefineGoes(g, s1, c, i, v);
    assert Goes(g, s, c, s2, d1);
    assert s2.blocks[0].body <= g[0].body;
    d := StoreGoes(g, s2, d1, Store(Cells(s), Register(s.registers)), Cells(s), v);
    ReachesThrough(g, c, 0, d1, 0, d);
  }

  /** The slots contributed by bindings found after `found`. */
  function NewSlots(found: seq<BindingInfo>, infos: seq<BindingInfo>, vs: seq<Value>): Env {
    if found <= infos && |infos| - |found| == |vs| then BoundSlots(infos[|found|..], vs) else []
  }

  lemma NewSlotsAppend(
    found: seq<BindingInfo>, next: seq<BindingInfo>, infos: seq<BindingInfo>, vs: seq<Value>, ws: seq<Value>)
    requires found <= next <= infos && |next| - |found| == |vs| && |infos| - |next| == |ws|
    ensures NewSlots(found, infos, vs + ws) == NewSlots(found, next, vs) + NewSlots(next, infos, ws)
  {
  }

  /** Emitted bindings declare exactly the names of the pattern, in cells of their own holding the matched parts. */
  lemma {:induction false} BindGoes(
    g: Graph, s: State, c: Config, p: Pattern, place: Place, t: Type, found: seq<BindingInfo>, v: Value, env: Env)
    returns (d: Config)
    requires Ready(g, s, c) && LocalsOk(s) && Matched(env, s.locals, c) && Stored(place, s, c, v)
    requires HasType(v, t) && AnalyzeNode(t, p, found).Some? && Matches(p, v)
    requires Completes(g, EmitBind(s, p, place))
    ensures Binds(g, s, c, env, EmitBind(s, p, place), d,
                  NewSlots(found, AnalyzeNode(t, p, found).value.bindings, Bound(p, v)))
    decreases p
  {
    hide Completes, Goes, Touches, Backed, AtEnd, Stored, EmitBindFields, EmitBindPayloads, Open, Matched, LocalsOk;
    match p
    case Wildcard => d := BindsNothing(g, s, c, env);
    case Binding(x) =>
      d := BindingGoes(g, s, c, x, place, t, v, env);
      assert NewSlots(found, found + [BindingInfo(x, t)], [v]) == [Slot(x, t, Some(v))];
    case StructPattern(fields) => d := BindFieldsGo(g, s, c, fields, 0, place, t, found, v, env);
    case EnumPattern(tag, payloads) =>
      d := BindPayloadsGo(g, s, c, payloads, 0, place, tag, t.constructors[tag], found, v, env);
  }

  lemma BindsNothing(g: Graph, s: State, c: Config, env: Env) returns (d: Config)
    requires Ready(g, s, c) && LocalsOk(s) && Matched(env, s.locals, c)
    ensures Binds(g, s, c, env, s, d, [])
  {
    GoesNowhere(g, s, c);
    d := c;
    assert env + [] == env;
  }

  lemma NamingEarlier(g: Graph, s: State, t: State)
    requires Open(s) && Naming(s, t) && Completes(g, t)
    ensures Completes(g, s)
  {
    CompletesEarlier(g, s, t, {t.at});
  }

  lemma NamingOpen(s: State, t: State)
    requires Naming(s, t)
    ensures Open(t)
  {
  }

  lemma {:induction false} BindFieldsGo(
    g: Graph, s: State, c: Config, fields: seq<FieldPattern>, i: nat, place: Place, t: Type,
    found: seq<BindingInfo>, v: Value, env: Env)
    returns (d: Config)
    requires Ready(g, s, c) && LocalsOk(s) && Matched(env, s.locals, c) && Stored(place, s, c, v)
    requires t.StructType? && HasType(v, t) && v.Record?
    requires i <= |fields| && AnalyzeFields(t, fields, i, found).Some?
    requires forall j :: i <= j < |fields| ==> MatchesField(fields[j], v)
    requires Completes(g, EmitBindFields(s, fields, i, place))
    ensures Binds(g, s, c, env, EmitBindFields(s, fields, i, place), d,
                  NewSlots(found, AnalyzeFields(t, fields, i, found).value.0, BoundFields(fields, i, v.fields)))
    decreases fields, |fields| - i
  {
    hide Completes, Goes, Touches, Backed, AtEnd, Stored, EmitBindField, Open, Matched, LocalsOk, MatchesField, NewSlots;
    hide BoundField, Naming, HasType, AnalyzeField;
    if i == |fields| {
      d := BindsNothing(g, s, c, env);
      NewSlotsNone(found);
    } else {
      var f := fields[i];
      var s1 := EmitBindField(s, f, place);
      EmitBindFieldFrame(s, f, place);
      EmitBindFieldsFrame(s1, fields, i + 1, place) by { NamingOpen(s, s1); }
      NamingOpen(s, s1);
      NamingEarlier(g, s1, EmitBindFields(s, fields, i, place));
      var d1 := BindFieldGoes(g, s, c, f, place, t, found, v, env);
      var next, b1 := AnalyzeField(t, f, found).value.bindings, BoundField(f, v.fields);
      ReadyThere(g, s, c, s1, d1);
      StoredThrough(place, v, g, s, c, s1, d1);
      d := BindFieldsGo(g, s1, d1, fields, i + 1, place, t, next, v, env + NewSlots(found, next, b1));
      var last, b2 := AnalyzeFields(t, fields, i + 1, next).value.0, BoundFields(fields, i + 1, v.fields);
      BindsThrough(g, s, c, env, s1, d1, NewSlots(found, next, b1), EmitBindFields(s, fields, i, place), d,
                   NewSlots(next, last, b2));
      FieldSound(t, f, found, v);
      FieldsSound(t, fields, i + 1, next, v);
      NewSlotsAppend(found, next, last, b1, b2);
    }
  }

  lemma NewSlotsNone(found: seq<BindingInfo>)
    ensures NewSlots(found, found, []) == []
  {
  }

  lemma {:induction false} BindFieldGoes(
    g: Graph, s: State, c: Config, f: FieldPattern, place: Place, t: Type, found: seq<BindingInfo>, v: Value, env: Env)
    returns (d: Config)
    requires Ready(g, s, c) && LocalsOk(s) && Matched(env, s.locals, c) && Stored(place, s, c, v)
    requires t.StructType? && HasType(v, t) && AnalyzeField(t, f, found).Some? && MatchesField(f, v)
    requires Completes(g, EmitBindField(s, f, place))
    ensures Binds(g, s, c, env, EmitBindField(s, f, place), d,
                  NewSlots(found, AnalyzeField(t, f, found).value.bindings, BoundField(f, v.fields)))
    decreases f
  {
    hide Completes, Goes, Touches, Backed, AtEnd, Stored, EmitBind, Open, Matched, LocalsOk, Binds;
    StoredField(place, s, c, v, f.index);
    d := BindGoes(g, s, c, f.pattern, FieldPlace(place, f.index), t.fields[f.index], found, v.fields[f.index], env);
  }

  lemma {:induction false} BindPayloadsGo(
    g: Graph, s: State, c: Config, payloads: seq<Pattern>, i: nat, place: Place, tag: nat, k: Constructor,
    found: seq<BindingInfo>, v: Value, env: Env)
    returns (d: Config)
    requires Ready(g, s, c) && LocalsOk(s) && Matched(env, s.locals, c) && Stored(place, s, c, v)
    requires v.Tagged? && v.tag == tag && HasTypes(v.payloads, k)
    requires i <= |payloads| == |k.payloads| && AnalyzePayloads(k.payloads, payloads, i, found).Some?
    requires forall j :: i <= j < |payloads| ==> Matches(payloads[j], v.payloads[j])
    requires Completes(g, EmitBindPayloads(s, payloads, i, place, tag))
    ensures Binds(g, s, c, env, EmitBindPayloads(s, payloads, i, place, tag), d,
                  NewSlots(found, AnalyzePayloads(k.payloads, payloads, i, found).value.0,
                           BoundPayloads(payloads, i, v.payloads)))
    decreases payloads, |payloads| - i
  {
    hide Completes, Goes, Touches, Backed, AtEnd, Stored, EmitBind, Open, Matched, LocalsOk, Matches, NewSlots;
    hide Bound, Naming, ExtractPayload, Plain;
    if i == |payloads| {
      d := BindsNothing(g, s, c, env);
      NewSlotsNone(found);
    } else {
      var p, w := payloads[i], v.payloads[i];
      var s0, q := ExtractPayload(s, place, tag, i), Place(Cells(s), []);
      var s1 := EmitBind(s0, p, q);
      var last := EmitBindPayloads(s1, payloads, i + 1, place, tag);
      PayloadBindStates(g, s, payloads, i, place, tag);
      var d0 := ExtractGoes(g, s, c, place, tag, i, v);
      ReadyThere(g, s, c, s0, d0);
      LocalsOkLater(s, s0);
      PlainLocals(s, s0);
      MatchedAfter(env, g, s, c, s0, d0);
      var d1 := BindGoes(g, s0, d0, p, q, k.payloads[i], found, w, env);
      GoesThrough(g, s, c, s0, d0, s1, d1);
      var next, b1 := AnalyzeNode(k.payloads[i], p, found).value.bindings, Bound(p, w);
      ReadyThere(g, s, c, s1, d1);
      StoredThrough(place, v, g, s, c, s1, d1);
      d := BindPayloadsGo(g, s1, d1, payloads, i + 1, place, tag, k, next, v, env + NewSlots(found, next, b1));
      var infos, b2 := AnalyzePayloads(k.payloads, payloads, i + 1, next).value.0, BoundPayloads(payloads, i + 1, v.payloads);
      BindsThrough(g, s, c, env, s1, d1, NewSlots(found, next, b1), last, d, NewSlots(next, infos, b2));
      AnalysisSound(k.payloads[i], p, found, w);
      PayloadsSound(k, payloads, i + 1, next, v.payloads);
      NewSlotsAppend(found, next, infos, b1, b2);
    }
  }

  lemma PayloadBindStates(g: Graph, s: State, payloads: seq<Pattern>, i: nat, place: Place, tag: nat)
    requires Open(s) && i < |payloads| && Completes(g, EmitBindPayloads(s, payloads, i, place, tag))
    ensures var s0 := ExtractPayload(s, place, tag, i);
            var s1 := EmitBind(s0, payloads[i], Place(Cells(s), []));
            Open(s0) && Open(s1) && Completes(g, s0) && Completes(g, s1) && Plain(s, s0)
  {
    hide Completes, Touches, Naming, EmitBind, Open, Plain, ExtractPayload;
    var s0, q := ExtractPayload(s, place, tag, i), Place(Cells(s), []);
    var s1 := EmitBind(s0, payloads[i], q);
    ExtractFrame(s, place, tag, i);
    EmitBindFrame(s0, payloads[i], q);
    NamingOpen(s0, s1);
    EmitBindPayloadsFrame(s1, payloads, i + 1, place, tag);
    NamingEarlier(g, s1, EmitBindPayloads(s1, payloads, i + 1, place, tag));
    NamingEarlier(g, s0, s1);
  }
}
