/** Types, values, expressions and statements of the body fragment that is checked and lowered. */
module Syntax {
  import opened Integers
  import opened Options

  datatype Type =
    | IntegerType(it: IntType)
    | BooleanType
    | TextType
    | StructType(fields: seq<Type>)
    | EnumType(constructors: seq<Constructor>)

  datatype Constructor = Constructor(payloads: seq<Type>)

  /** Run-time values; a boolean is a one-bit pattern. */
  datatype Value =
    | Bits(width: nat, bits: nat)
    | Handle(id: nat)
    | Record(fields: seq<Value>)
    | Tagged(tag: nat, payloads: seq<Value>)

  function Bool(b: bool): Value {
    Bits(1, if b then 1 else 0)
  }

  predicate IsBool(v: Value) {
    v == Bool(true) || v == Bool(false)
  }

  predicate IsInteger(v: Value, t: IntType) {
    v.Bits? && v.width == t.bits && v.bits < Pow2(t.bits)
  }

  function FromInteger(x: int, t: IntType): (v: Value)
    ensures IsInteger(v, t)
  {
    Bits(t.bits, Encode(x, t.bits))
  }

  function ToInteger(v: Value, t: IntType): (x: int)
    requires IsInteger(v, t)
    ensures InRange(x, t)
  {
    Meaning(v.bits, t)
  }

  predicate HasType(v: Value, t: Type)
    decreases t
  {
    match t
    case IntegerType(it) => IsInteger(v, it)
    case BooleanType => IsBool(v)
    case TextType => v.Handle?
    case StructType(fields) =>
      v.Record? && |v.fields| == |fields| && forall i :: 0 <= i < |fields| ==> HasType(v.fields[i], fields[i])
    case EnumType(constructors) =>
      v.Tagged? && v.tag < |constructors| && HasTypes(v.payloads, constructors[v.tag])
  }

  predicate HasTypes(vs: seq<Value>, c: Constructor)
    decreases c
  {
    |vs| == |c.payloads| && forall i :: 0 <= i < |vs| ==> HasType(vs[i], c.payloads[i])
  }

  /** Owned values are moved, not copied: text, and anything that contains text. */
  predicate MoveOnly(t: Type)
    decreases t
  {
    match t
    case IntegerType(_) => false
    case BooleanType => false
    case TextType => true
    case StructType(fields) => exists i :: 0 <= i < |fields| && MoveOnly(fields[i])
    case EnumType(constructors) => exists i :: 0 <= i < |constructors| && OwnsPayload(constructors[i])
  }

  predicate OwnsPayload(c: Constructor)
    decreases c
  {
    exists j :: 0 <= j < |c.payloads| && MoveOnly(c.payloads[j])
  }

  /** The type of a field path inside a type. */
  function FieldType(t: Type, path: seq<nat>): Option<Type>
    decreases |path|
  {
    if path == [] then Some(t)
    else if t.StructType? && path[0] < |t.fields| then FieldType(t.fields[path[0]], path[1..])
    else None
  }

  function Project(v: Value, path: seq<nat>): Option<Value>
    decreases |path|
  {
    if path == [] then Some(v)
    else if v.Record? && path[0] < |v.fields| then Project(v.fields[path[0]], path[1..])
    else None
  }

  lemma {:induction false} ProjectField(v: Value, path: seq<nat>, i: nat)
    requires Project(v, path).Some?
    ensures Project(v, path + [i]) ==
            var w := Project(v, path).value;
            if w.Record? && i < |w.fields| then Some(w.fields[i]) else None
    decreases |path|
  {
    if path == [] {
      assert (path + [i])[1..] == [];
    } else {
      assert (path + [i])[1..] == path[1..] + [i];
      ProjectField(v.fields[path[0]], path[1..], i);
    }
  }

  lemma {:induction false} ProjectTyped(v: Value, t: Type, path: seq<nat>)
    requires HasType(v, t) && FieldType(t, path).Some?
    ensures Project(v, path).Some? && HasType(Project(v, path).value, FieldType(t, path).value)
    decreases |path|
  {
    if path != [] {
      ProjectTyped(v.fields[path[0]], t.fields[path[0]], path[1..]);
    }
  }

  // ----- expressions -----

  /** Integer operators carry the operand type that type inference settled on. */
  datatype Expr =
    | IntLiteral(t: IntType, value: int)
    | BoolLiteral(flag: bool)
    | Read(name: string, path: seq<nat>)
    | Convert(from: IntType, to: IntType, operand: Expr)
    | Arith(op: ArithOp, t: IntType, left: Expr, right: Expr)
    | Compare(cmp: CompareOp, t: IntType, left: Expr, right: Expr)
    | SameBool(negated: bool, left: Expr, right: Expr)
    | And(left: Expr, right: Expr)
    | Or(left: Expr, right: Expr)
    | Not(operand: Expr)
    | Negate(t: IntType, operand: Expr)
    | BitNot(t: IntType, operand: Expr)

  // ----- patterns and statements -----

  datatype Pattern =
    | Wildcard
    | Binding(name: string)
    | StructPattern(fields: seq<FieldPattern>)
    | EnumPattern(tag: nat, payloads: seq<Pattern>)

  datatype FieldPattern = FieldPattern(index: nat, pattern: Pattern)

  datatype Stmt =
    | Declare(name: string, declared: Type, mutable: bool)
    | Assign(name: string, value: Expr)
    | Return(result: Option<Expr>)
    | If(condition: Expr, thenBlock: seq<Stmt>, elseBlock: seq<Stmt>)
    | While(condition: Expr, body: seq<Stmt>)
    | Unsafe(body: seq<Stmt>)
    | Match(matched: Type, scrutinee: Expr, cases: seq<Case>)

  datatype Case = Case(pattern: Pattern, body: seq<Stmt>)

  datatype Parameter = Parameter(name: string, t: Type, mutable: bool)

  // ----- name lookup, newest first -----

  /** Searches a table of names from its newest entry. */
  function Newest(names: seq<string>, x: string): (r: Option<nat>)
    ensures r.Some? ==> r.value < |names| && names[r.value] == x
                        && forall j :: r.value < j < |names| ==> names[j] != x
    ensures r.None? ==> x !in names
  {
    if names == [] then None
    else if names[|names| - 1] == x then Some(|names| - 1)
    else Newest(names[..|names| - 1], x)
  }
}
