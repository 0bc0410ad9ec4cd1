/** A control-flow graph with stack cells and registers, and its step-by-step execution. */
module Machine {
  import opened MachineIntegers
  import opened Options
  import opened Syntax

  /** A statically addressed stack cell, or a field inside one. */
  datatype Place = Place(cell: nat, path: seq<nat>)

  datatype Operand = Constant(value: Value) | Register(id: nat)

  datatype Instruction =
    | Alloca(cell: nat)
    | Binary(dst: nat, op: BinaryOp, a: Operand, b: Operand)
    | Cast(dst: nat, cast: CastOp, from: nat, to: nat, a: Operand)
    | ICmp(dst: nat, predicate_: Predicate, a: Operand, b: Operand)
    | Load(dst: nat, place: Place)
    | LoadTag(dst: nat, place: Place)
    | Store(cell: nat, a: Operand)
    | CopyPayload(cell: nat, place: Place, tag: nat, index: nat)
    | TrapCall

  datatype Terminator =
    | Br(target: nat)
    | CondBr(condition: Operand, yes: nat, no: nat)
    | Ret(a: Operand)
    | RetVoid
    | Unreachable

  datatype Block = Block(body: seq<Instruction>, end: Option<Terminator>)

  type Graph = seq<Block>

  datatype Config = Config(block: nat, pc: nat, registers: map<nat, Value>, cells: map<nat, Option<Value>>)

  datatype Status = Running(config: Config) | Finished(value: Option<Value>) | TrapStop | Undefined

  function Operate(a: Operand, registers: map<nat, Value>): Option<Value> {
    match a
    case Constant(v) => Some(v)
    case Register(id) => if id in registers then Some(registers[id]) else None
  }

  function ReadPlace(cells: map<nat, Option<Value>>, place: Place): Option<Value> {
    if place.cell in cells && cells[place.cell].Some? then Project(cells[place.cell].value, place.path) else None
  }

  function Define(c: Config, dst: nat, v: Option<Value>): Status {
    if v.None? then Undefined
    else Running(c.(pc := c.pc + 1, registers := c.registers[dst := v.value]))
  }

  function ApplyBinary(op: BinaryOp, a: Option<Value>, b: Option<Value>): Option<Value> {
    if a.Some? && b.Some? && a.value.Bits? && b.value.Bits? && a.value.width == b.value.width >= 1 then
      match BinaryResult(op, a.value.width, a.value.bits, b.value.bits)
      case None => None
      case Some(r) => Some(Bits(a.value.width, r))
    else None
  }

  function ApplyCast(op: CastOp, from: nat, to: nat, a: Option<Value>): Option<Value> {
    if a.Some? && a.value.Bits? && a.value.width == from >= 1
    then Some(Bits(to, CastResult(op, from, to, a.value.bits)))
    else None
  }

  function ApplyCompare(p: Predicate, a: Option<Value>, b: Option<Value>): Option<Value> {
    if a.Some? && b.Some? && a.value.Bits? && b.value.Bits? && a.value.width == b.value.width >= 1
    then Some(Bool(CompareResult(p, a.value.width, a.value.bits, b.value.bits)))
    else None
  }

  function ExecInstruction(i: Instruction, c: Config): Status {
    match i
    case Alloca(cell) => Running(c.(pc := c.pc + 1, cells := c.cells[cell := None]))
    case Binary(dst, op, a, b) =>
      Define(c, dst, ApplyBinary(op, Operate(a, c.registers), Operate(b, c.registers)))
    case Cast(dst, op, from, to, a) => Define(c, dst, ApplyCast(op, from, to, Operate(a, c.registers)))
    case ICmp(dst, p, a, b) => Define(c, dst, ApplyCompare(p, Operate(a, c.registers), Operate(b, c.registers)))
    case Load(dst, place) => Define(c, dst, ReadPlace(c.cells, place))
    case LoadTag(dst, place) =>
      var v := ReadPlace(c.cells, place);
      Define(c, dst, if v.Some? && v.value.Tagged? then Some(Bits(64, v.value.tag)) else None)
    case Store(cell, a) =>
      var v := Operate(a, c.registers);
      if v.None? || cell !in c.cells then Undefined
      else Running(c.(pc := c.pc + 1, cells := c.cells[cell := v]))
    case CopyPayload(cell, place, tag, index) =>
      // the payload bytes are only those of `tag` while the value carries that tag
      var v := ReadPlace(c.cells, place);
      if v.None? || !v.value.Tagged? || v.value.tag != tag || index >= |v.value.payloads| || cell !in c.cells
      then Undefined
      else Running(c.(pc := c.pc + 1, cells := c.cells[cell := Some(v.value.payloads[index])]))
    case TrapCall => TrapStop
  }

  function Jump(c: Config, target: nat): Status {
    Running(c.(block := target, pc := 0))
  }

  function ExecTerminator(t: Terminator, c: Config): Status {
    match t
    case Br(target) => Jump(c, target)
    case CondBr(condition, yes, no) =>
      var v := Operate(condition, c.registers);
      if v == Some(Bool(true)) then Jump(c, yes)
      else if v == Some(Bool(false)) then Jump(c, no)
      else Undefined
    case Ret(a) =>
      var v := Operate(a, c.registers);
      if v.Some? then Finished(v) else Undefined
    case RetVoid => Finished(None)
    case Unreachable => Undefined
  }

  function Step(g: Graph, c: Config): Status {
    if c.block >= |g| then Undefined
    else if c.pc < |g[c.block].body| then ExecInstruction(g[c.block].body[c.pc], c)
    else if c.pc == |g[c.block].body| && g[c.block].end.Some? then ExecTerminator(g[c.block].end.value, c)
    else Undefined
  }

  function Run(g: Graph, c: Config, n: nat): Status
    decreases n
  {
    if n == 0 then Running(c)
    else
      match Step(g, c)
      case Running(next) => Run(g, next, n - 1)
      case stopped => stopped
  }

  /** Some run of at least `least` steps leads from `c` to `later`. */
  ghost predicate Reaches(g: Graph, c: Config, least: nat, later: Config) {
    exists n: nat :: least <= n && Run(g, c, n) == Running(later)
  }

  /** Some run from `c` stops with `status`. */
  ghost predicate Stops(g: Graph, c: Config, status: Status) {
    !status.Running? && exists n: nat :: Run(g, c, n) == status
  }

  lemma {:induction false} RunsCompose(g: Graph, c: Config, m: nat, mid: Config, n: nat)
    requires Run(g, c, m) == Running(mid)
    ensures Run(g, c, m + n) == Run(g, mid, n)
    decreases m
  {
    if m > 0 {
      RunsCompose(g, Step(g, c).config, m - 1, mid, n);
    }
  }

  lemma ReachesHere(g: Graph, c: Config)
    ensures Reaches(g, c, 0, c)
  {
    assert Run(g, c, 0) == Running(c);
  }

  lemma ReachesStep(g: Graph, c: Config, later: Config)
    requires Step(g, c) == Running(later)
    ensures Reaches(g, c, 1, later)
  {
    assert Run(g, later, 0) == Running(later);
    assert Run(g, c, 1) == Running(later);
  }

  lemma ReachesThrough(g: Graph, c: Config, m: nat, mid: Config, n: nat, later: Config)
    requires Reaches(g, c, m, mid) && Reaches(g, mid, n, later)
    ensures Reaches(g, c, m + n, later)
  {
    var i: nat :| m <= i && Run(g, c, i) == Running(mid);
    var j: nat :| n <= j && Run(g, mid, j) == Running(later);
    RunsCompose(g, c, i, mid, j);
  }

  lemma ReachesFewer(g: Graph, c: Config, m: nat, least: nat, later: Config)
    requires Reaches(g, c, m, later) && least <= m
    ensures Reaches(g, c, least, later)
  {
    var i: nat :| m <= i && Run(g, c, i) == Running(later);
  }

  lemma StopsThrough(g: Graph, c: Config, m: nat, mid: Config, status: Status)
    requires Reaches(g, c, m, mid) && Stops(g, mid, status)
    ensures Stops(g, c, status)
  {
    var i: nat :| m <= i && Run(g, c, i) == Running(mid);
    var j: nat :| Run(g, mid, j) == status;
    RunsCompose(g, c, i, mid, j);
  }

  lemma StopsStep(g: Graph, c: Config, status: Status)
    requires !status.Running? && Step(g, c) == status
    ensures Stops(g, c, status)
  {
    assert Run(g, c, 1) == status;
  }

  /** The machine is deterministic: a run that stops, stops in one way and never runs past it. */
  lemma {:induction false} RunStopped(g: Graph, c: Config, n: nat, m: nat)
    requires !Run(g, c, n).Running? && n <= m
    ensures Run(g, c, m) == Run(g, c, n)
    decreases n
  {
    if n > 0 && Step(g, c).Running? {
      RunStopped(g, Step(g, c).config, n - 1, m - 1);
    }
  }

  lemma StopsOnce(g: Graph, c: Config, s1: Status, s2: Status)
    requires Stops(g, c, s1) && Stops(g, c, s2)
    ensures s1 == s2
  {
    var i: nat :| Run(g, c, i) == s1;
    var j: nat :| Run(g, c, j) == s2;
    if i <= j {
      RunStopped(g, c, i, j);
    } else {
      RunStopped(g, c, j, i);
    }
  }
}
