/** Steps of a run through emitted code: how each builder step is executed in any graph that completes it. */
module Simulation {
  import opened MachineIntegers
  import opened Options
  import opened Syntax
  import opened Source
  import opened Machine
  import opened Lowering
  import opened LoweringFrame

  // ----- graphs that complete a builder state -----

  /** A graph in which the ended blocks of `s` are final and the others have only grown. */
  ghost predicate Completes(g: Graph, s: State) {
    && |s.blocks| <= |g|
    && forall b :: 0 <= b < |s.blocks| ==>
         s.blocks[b].body <= g[b].body && (s.blocks[b].end.Some? ==> g[b] == s.blocks[b])
  }

  lemma CompletesEarlier(g: Graph, s: State, t: State, open: set<nat>)
    requires Open(s) && Touches(s, t, open) && Completes(g, t)
    ensures Completes(g, s)
  {
    assert s.blocks[s.at].body <= t.blocks[s.at].body <= g[s.at].body;
    assert s.blocks[0].body <= t.blocks[0].body <= g[0].body;
  }

  /** The machine stands at the insertion point of `s`. */
  ghost predicate AtEnd(s: State, c: Config) {
    c.block == s.at && c.pc == |s.blocks[s.at].body|
  }

  /** Every cell the function will ever allocate exists. */
  ghost predicate Backed(g: Graph, c: Config) {
    |g| > 0 && forall k :: 0 <= k < |g[0].body| ==> k in c.cells
  }

  /** Registers and cells that existed at `s` have kept their contents. */
  ghost predicate Kept(s: State, c: Config, d: Config) {
    && (forall r :: r < s.registers && r in c.registers ==> r in d.registers && d.registers[r] == c.registers[r])
    && (forall k :: k < Cells(s) && k in c.cells ==> k in d.cells && d.cells[k] == c.cells[k])
    && c.cells.Keys <= d.cells.Keys
  }

  /** Control moves from the insertion point of `s` to that of `t`, keeping what existed at `s`. */
  ghost predicate Goes(g: Graph, s: State, c: Config, t: State, d: Config) {
    Reaches(g, c, 0, d) && AtEnd(t, d) && Kept(s, c, d) && Backed(g, d)
    && s.registers <= t.registers && Cells(s) <= Cells(t)
  }

  /** The machine stands at the insertion point of `s`, whose graph is completed by `g`. */
  ghost predicate Ready(g: Graph, s: State, c: Config) {
    Open(s) && Completes(g, s) && AtEnd(s, c) && Backed(g, c)
  }

  /** An operand that is defined by `s` and has value `v`. */
  ghost predicate Holds(a: Operand, s: State, c: Config, v: Value) {
    Operate(a, c.registers) == Some(v) && (a.Register? ==> a.id < s.registers)
  }

  lemma GoesNowhere(g: Graph, s: State, c: Config)
    requires Ready(g, s, c)
    ensures Goes(g, s, c, s, c)
  {
    ReachesHere(g, c);
  }

  lemma GoesThrough(g: Graph, s: State, c: Config, t: State, d: Config, u: State, e: Config)
    requires Goes(g, s, c, t, d) && Goes(g, t, d, u, e)
    ensures Goes(g, s, c, u, e)
  {
    ReachesThrough(g, c, 0, d, 0, e);
  }

  // ----- single steps -----

  /** The next instruction defines a fresh register. */
  lemma DefineGoes(g: Graph, s: State, c: Config, i: Instruction, v: Value) returns (d: Config)
    requires Open(s) && AtEnd(s, c) && Completes(g, Lowering.Define(s, i)) && Backed(g, c)
    requires ExecInstruction(i, c) == Machine.Define(c, s.registers, Some(v))
    ensures Goes(g, s, c, Lowering.Define(s, i), d) && Holds(Register(s.registers), Lowering.Define(s, i), d, v)
    ensures d.cells == c.cells && d.registers == c.registers[s.registers := v]
  {
    d := c.(pc := c.pc + 1, registers := c.registers[s.registers := v]);
    var body := Lowering.Define(s, i).blocks[s.at].body;
    assert body <= g[s.at].body && body[c.pc] == i;
    ReachesStep(g, c, d);
    ReachesFewer(g, c, 1, 0, d);
  }

  /** The next instruction stores to a cell; cells older than `base` are kept. */
  lemma StoreGoes(g: Graph, s: State, c: Config, i: Instruction, cell: nat, v: Value) returns (d: Config)
    requires Open(s) && AtEnd(s, c) && Completes(g, Put(s, i)) && Backed(g, c)
    requires cell in c.cells
    requires ExecInstruction(i, c) == Running(c.(pc := c.pc + 1, cells := c.cells[cell := Some(v)]))
    ensures Reaches(g, c, 0, d) && AtEnd(Put(s, i), d) && Backed(g, d)
    ensures d.registers == c.registers && d.cells == c.cells[cell := Some(v)]
  {
    d := c.(pc := c.pc + 1, cells := c.cells[cell := Some(v)]);
    var body := Put(s, i).blocks[s.at].body;
    assert body <= g[s.at].body && body[c.pc] == i;
    ReachesStep(g, c, d);
    ReachesFewer(g, c, 1, 0, d);
  }

  /** Storing to a cell allocated just now. */
  lemma FreshStoreGoes(g: Graph, s: State, c: Config, i: Instruction, v: Value) returns (d: Config)
    requires Open(s) && AtEnd(s, c) && Completes(g, Put(Allocate(s), i)) && Backed(g, c)
    requires Cells(s) in c.cells ==>
               ExecInstruction(i, c) == Running(c.(pc := c.pc + 1, cells := c.cells[Cells(s) := Some(v)]))
    ensures Goes(g, s, c, Put(Allocate(s), i), d)
    ensures d.registers == c.registers && d.cells == c.cells[Cells(s) := Some(v)]
  {
    assert Allocate(s).blocks[0].body <= g[0].body;
    d := StoreGoes(g, Allocate(s), c, i, Cells(s), v);
  }

  /** Following the terminator that ends the insertion block. */
  lemma EndGoes(g: Graph, s: State, c: Config, end: Terminator, target: nat) returns (d: Config)
    requires Open(s) && AtEnd(s, c) && Completes(g, End(s, end)) && Backed(g, c)
    requires ExecTerminator(end, c) == Jump(c, target)
    ensures Reaches(g, c, 1, d) && d == c.(block := target, pc := 0) && Backed(g, d)
  {
    d := c.(block := target, pc := 0);
    assert g[s.at] == End(s, end).blocks[s.at];
    ReachesStep(g, c, d);
  }

  lemma EndStops(g: Graph, s: State, c: Config, end: Terminator, status: Status)
    requires Open(s) && AtEnd(s, c) && Completes(g, End(s, end))
    requires ExecTerminator(end, c) == status && !status.Running?
    ensures Stops(g, c, status)
  {
    assert g[s.at] == End(s, end).blocks[s.at];
    StopsStep(g, c, status);
  }

  lemma DefineEarlier(g: Graph, s: State, i: Instruction)
    requires Open(s) && Completes(g, Lowering.Define(s, i)) && !i.Alloca?
    ensures Completes(g, s)
  {
    DefineFrame(s, i);
    CompletesEarlier(g, s, Lowering.Define(s, i), {s.at});
  }

  /** A trap split: the machine traps if the condition holds, and otherwise continues unchanged. */
  lemma TrapIfGoes(g: Graph, s: State, c: Config, a: Operand, b: bool) returns (d: Config)
    requires Open(s) && AtEnd(s, c) && Completes(g, TrapIf(s, a)) && Backed(g, c)
    requires Operate(a, c.registers) == Some(Bool(b))
    ensures b ==> Stops(g, c, TrapStop)
    ensures !b ==> Goes(g, s, c, TrapIf(s, a), d) && d.registers == c.registers && d.cells == c.cells
  {
    var trap := |s.blocks|;
    var t := TrapIf(s, a);
    assert t.blocks[s.at].end == Some(CondBr(a, trap, trap + 1)) && t.blocks[s.at].body == s.blocks[s.at].body;
    assert t.blocks[trap] == Block([TrapCall], Some(Unreachable));
    assert g[s.at] == t.blocks[s.at] && g[trap] == t.blocks[trap];
    d := c.(block := if b then trap else trap + 1, pc := 0);
    assert Step(g, c) == Running(d);
    ReachesStep(g, c, d);
    if b {
      StopsStep(g, d, TrapStop);
      StopsThrough(g, c, 1, d, TrapStop);
    } else {
      ReachesFewer(g, c, 1, 0, d);
    }
  }

  // ----- composed steps -----

  /** What emitted code does, given what the source operator does. */
  ghost predicate Simulates(g: Graph, s: State, c: Config, r: Emission, d: Config, e: Evaluated)
    requires r.Emitted?
  {
    match e
    case Yields(v) => Goes(g, s, c, r.s, d) && Holds(r.a, r.s, d, v)
    case Aborts => Stops(g, c, TrapStop)
    case NotBoolean => true
    case Wrong => true
  }

  lemma DefineTrapGoes(g: Graph, s: State, c: Config, i: Instruction, b: bool) returns (d: Config)
    requires Open(s) && AtEnd(s, c) && Backed(g, c) && !i.Alloca?
    requires Completes(g, TrapIf(Lowering.Define(s, i), Register(s.registers)))
    requires ExecInstruction(i, c) == Machine.Define(c, s.registers, Some(Bool(b)))
    ensures b ==> Stops(g, c, TrapStop)
    ensures !b ==> Goes(g, s, c, TrapIf(Lowering.Define(s, i), Register(s.registers)), d)
    ensures !b ==> d.cells == c.cells && d.registers == c.registers[s.registers := Bool(b)]
  {
    hide Goes, Completes, Touches, Lowering.Define, Open, Stops, Backed, AtEnd, TrapIf;
    var s1 := Lowering.Define(s, i);
    DefineFrame(s, i);
    TrapIfFrame(s1, Register(s.registers));
    var t := TrapIf(s1, Register(s.registers));
    CompletesEarlier(g, s1, t, {t.at});
    var c1 := DefineGoes(g, s, c, i, Bool(b));
    GoesAt(g, s, c, s1, c1);
    d := TrapIfGoes(g, s1, c1, Register(s.registers), b);
    if b {
      StopsThrough(g, c, 0, c1, TrapStop);
    } else {
      GoesThrough(g, s, c, s1, c1, t, d);
    }
  }

  lemma GoesAt(g: Graph, s: State, c: Config, t: State, d: Config)
    requires Goes(g, s, c, t, d)
    ensures Reaches(g, c, 0, d) && AtEnd(t, d) && Backed(g, d) && Kept(s, c, d)
    ensures s.registers <= t.registers && Cells(s) <= Cells(t)
  {
  }

  /** One more defined register after a stretch of code. */
  lemma DefineNext(g: Graph, s: State, c: Config, t: State, d: Config, i: Instruction, v: Value)
    returns (e: Config)
    requires Goes(g, s, c, t, d) && Open(t) && Completes(g, Lowering.Define(t, i))
    requires ExecInstruction(i, d) == Machine.Define(d, t.registers, Some(v))
    ensures Goes(g, s, c, Lowering.Define(t, i), e)
    ensures e.cells == d.cells && e.registers == d.registers[t.registers := v]
  {
    e := DefineGoes(g, t, d, i, v);
    GoesThrough(g, s, c, t, d, Lowering.Define(t, i), e);
  }

  /** One more defined register, computed from an operand by a cast. */
  lemma CastNext(g: Graph, s: State, c: Config, t: State, d: Config, op: CastOp, from: nat, to: nat, a: Operand,
                 v: Value, w: Value)
    returns (e: Config)
    requires Goes(g, s, c, t, d) && Open(t) && Completes(g, Lowering.Define(t, Cast(t.registers, op, from, to, a)))
    requires Operate(a, d.registers) == Some(v) && ApplyCast(op, from, to, Some(v)) == Some(w)
    ensures Goes(g, s, c, Lowering.Define(t, Cast(t.registers, op, from, to, a)), e)
    ensures e.cells == d.cells && e.registers == d.registers[t.registers := w]
  {
    hide Goes, Completes, Open, ApplyCast, Operate, Lowering.Define;
    e := DefineNext(g, s, c, t, d, Cast(t.registers, op, from, to, a), w);
  }

  lemma BinaryNext(g: Graph, s: State, c: Config, t: State, d: Config, op: BinaryOp, a: Operand, b: Operand,
                   v: Value, w: Value, x: Value)
    returns (e: Config)
    requires Goes(g, s, c, t, d) && Open(t) && Completes(g, Lowering.Define(t, Binary(t.registers, op, a, b)))
    requires Operate(a, d.registers) == Some(v) && Operate(b, d.registers) == Some(w)
    requires ApplyBinary(op, Some(v), Some(w)) == Some(x)
    ensures Goes(g, s, c, Lowering.Define(t, Binary(t.registers, op, a, b)), e)
    ensures e.cells == d.cells && e.registers == d.registers[t.registers := x]
  {
    hide Goes, Completes, Open, ApplyBinary, Operate, Lowering.Define;
    e := DefineNext(g, s, c, t, d, Binary(t.registers, op, a, b), x);
  }

  lemma CompareNext(g: Graph, s: State, c: Config, t: State, d: Config, p: MachineIntegers.Predicate, a: Operand,
                    b: Operand, v: Value, w: Value, x: Value)
    returns (e: Config)
    requires Goes(g, s, c, t, d) && Open(t) && Completes(g, Lowering.Define(t, ICmp(t.registers, p, a, b)))
    requires Operate(a, d.registers) == Some(v) && Operate(b, d.registers) == Some(w)
    requires ApplyCompare(p, Some(v), Some(w)) == Some(x)
    ensures Goes(g, s, c, Lowering.Define(t, ICmp(t.registers, p, a, b)), e)
    ensures e.cells == d.cells && e.registers == d.registers[t.registers := x]
  {
    hide Goes, Completes, Open, ApplyCompare, Operate, Lowering.Define;
    e := DefineNext(g, s, c, t, d, ICmp(t.registers, p, a, b), x);
  }

  /** After a stretch of code, a computed condition either traps or lets control continue. */
  lemma TrapNext(g: Graph, s: State, c: Config, t: State, d: Config, i: Instruction, b: bool)
    returns (e: Config)
    requires Goes(g, s, c, t, d) && Open(t) && !i.Alloca?
    requires Completes(g, TrapIf(Lowering.Define(t, i), Register(t.registers)))
    requires ExecInstruction(i, d) == Machine.Define(d, t.registers, Some(Bool(b)))
    ensures b ==> Stops(g, c, TrapStop)
    ensures !b ==> Goes(g, s, c, TrapIf(Lowering.Define(t, i), Register(t.registers)), e)
    ensures !b ==> e.cells == d.cells && e.registers == d.registers[t.registers := Bool(b)]
  {
    hide Goes, Completes, Open, Stops, Lowering.Define, TrapIf, ExecInstruction, Machine.Define, Kept, Backed, AtEnd;
    GoesAt(g, s, c, t, d);
    e := DefineTrapGoes(g, t, d, i, b);
    if b {
      StopsThrough(g, c, 0, d, TrapStop);
    } else {
      GoesThrough(g, s, c, t, d, TrapIf(Lowering.Define(t, i), Register(t.registers)), e);
    }
  }

  lemma CompareTrapNext(g: Graph, s: State, c: Config, t: State, d: Config, p: MachineIntegers.Predicate, a: Operand,
                        b: Operand, v: Value, w: Value, traps: bool)
    returns (e: Config)
    requires Goes(g, s, c, t, d) && Open(t)
    requires Completes(g, TrapIf(Lowering.Define(t, ICmp(t.registers, p, a, b)), Register(t.registers)))
    requires Operate(a, d.registers) == Some(v) && Operate(b, d.registers) == Some(w)
    requires ApplyCompare(p, Some(v), Some(w)) == Some(Bool(traps))
    ensures traps ==> Stops(g, c, TrapStop)
    ensures !traps ==> Goes(g, s, c, TrapIf(Lowering.Define(t, ICmp(t.registers, p, a, b)), Register(t.registers)), e)
    ensures !traps ==> e.cells == d.cells && e.registers == d.registers[t.registers := Bool(traps)]
  {
    hide Goes, Completes, Open, Stops, Lowering.Define, TrapIf, Machine.Define, ApplyCompare, Operate;
    e := TrapNext(g, s, c, t, d, ICmp(t.registers, p, a, b), traps);
  }

  /** An operand keeps its value along a stretch of code. */
  lemma HoldsThrough(a: Operand, v: Value, g: Graph, s: State, c: Config, t: State, d: Config)
    requires Holds(a, s, c, v) && Goes(g, s, c, t, d)
    ensures Holds(a, t, d, v)
  {
  }

  lemma PlainEarlier(g: Graph, s: State, t: State)
    requires Open(s) && Plain(s, t) && Completes(g, t)
    ensures Completes(g, s)
  {
    CompletesEarlier(g, s, t, {t.at});
  }
}
