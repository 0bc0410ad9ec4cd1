/**
 Expressions and their grammar: ten left-associative levels of binary operators over unary operators, conversions
 that bind tighter than unary operators, and places. A derivation tree spells one token string and means one
 expression.
 */
module ExpressionGrammar {
  import opened Options

  datatype Symbol =
    | OrOr | AndAnd | OrSign | Caret | AndSign | EqualsSign | NotEqualSign
    | LessSign | LessEqualSign | GreaterEqualSign | GreaterSign | ShiftLeftSign | ShiftRightSign
    | PlusSign | MinusSign | StarSign | SlashSign | PercentSign | NotSign | TildeSign
    | MutableWord | AsWord | LeftParen | RightParen | LeftBracket | RightBracket | DotSign | CommaSign

  /** The type after `as` is one token here. */
  datatype Token =
    | Identifier(name: string)
    | LiteralToken(literal: int)
    | TypeToken(id: nat)
    | Sign(symbol: Symbol)
    | EndOfFile

  datatype BinaryOp =
    | LogicalOr | LogicalAnd | BitOr | BitXor | BitAnd | Equal | NotEqual
    | Less | LessOrEqual | GreaterOrEqual | Greater | ShiftLeft | ShiftRight
    | Add | Subtract | Multiply | Divide | Modulo

  datatype UnaryOp = Not | BitNot | Negate | Address | AddressMutable | Dereference

  datatype Expression =
    | Literal(value: int)
    | Atom(place: Place)
    | Call(function_: Place, arguments: seq<Expression>)
    | Unary(unary: UnaryOp, operand: Expression)
    | Binary(binary: BinaryOp, left: Expression, right: Expression)
    | Conversion(operand: Expression, target: nat)

  datatype Place =
    | Base(name: string)
    | Field(parent: Place, field: string)
    | Index(parent: Place, index: Expression)
    | Pointee(parent: Place)

  // ----- operator tokens -----

  /** Precedence and operation of a binary operator token. */
  function BinaryInfo(t: Token): Option<(nat, BinaryOp)> {
    match t
    case Sign(OrOr) => Some((1, LogicalOr))
    case Sign(AndAnd) => Some((2, LogicalAnd))
    case Sign(OrSign) => Some((3, BitOr))
    case Sign(Caret) => Some((4, BitXor))
    case Sign(AndSign) => Some((5, BitAnd))
    case Sign(EqualsSign) => Some((6, Equal))
    case Sign(NotEqualSign) => Some((6, NotEqual))
    case Sign(LessSign) => Some((7, Less))
    case Sign(LessEqualSign) => Some((7, LessOrEqual))
    case Sign(GreaterEqualSign) => Some((7, GreaterOrEqual))
    case Sign(GreaterSign) => Some((7, Greater))
    case Sign(ShiftLeftSign) => Some((8, ShiftLeft))
    case Sign(ShiftRightSign) => Some((8, ShiftRight))
    case Sign(PlusSign) => Some((9, Add))
    case Sign(MinusSign) => Some((9, Subtract))
    case Sign(StarSign) => Some((10, Multiply))
    case Sign(SlashSign) => Some((10, Divide))
    case Sign(PercentSign) => Some((10, Modulo))
    case _ => None
  }

  function UnaryInfo(t: Token): Option<UnaryOp> {
    match t
    case Sign(NotSign) => Some(Not)
    case Sign(TildeSign) => Some(BitNot)
    case Sign(MinusSign) => Some(Negate)
    case Sign(AndSign) => Some(Address)
    case Sign(StarSign) => Some(Dereference)
    case _ => None
  }

  function BinaryToken(op: BinaryOp): (t: Token)
    ensures BinaryInfo(t).Some? && BinaryInfo(t).value.1 == op
  {
    match op
    case LogicalOr => Sign(OrOr)
    case LogicalAnd => Sign(AndAnd)
    case BitOr => Sign(OrSign)
    case BitXor => Sign(Caret)
    case BitAnd => Sign(AndSign)
    case Equal => Sign(EqualsSign)
    case NotEqual => Sign(NotEqualSign)
    case Less => Sign(LessSign)
    case LessOrEqual => Sign(LessEqualSign)
    case GreaterOrEqual => Sign(GreaterEqualSign)
    case Greater => Sign(GreaterSign)
    case ShiftLeft => Sign(ShiftLeftSign)
    case ShiftRight => Sign(ShiftRightSign)
    case Add => Sign(PlusSign)
    case Subtract => Sign(MinusSign)
    case Multiply => Sign(StarSign)
    case Divide => Sign(SlashSign)
    case Modulo => Sign(PercentSign)
  }

  function Precedence(op: BinaryOp): (p: nat)
    ensures 1 <= p <= 10
  {
    BinaryInfo(BinaryToken(op)).value.0
  }

  lemma BinaryInfoIs(t: Token)
    requires BinaryInfo(t).Some?
    ensures t == BinaryToken(BinaryInfo(t).value.1) && BinaryInfo(t).value.0 == Precedence(BinaryInfo(t).value.1)
  {
  }

  // ----- derivation trees -----

  datatype Tree =
    | LiteralTree(value: int)
    | PlaceTree(name: string, suffixes: seq<Suffix>)
    | CallTree(name: string, suffixes: seq<Suffix>, arguments: seq<Tree>)
    | ParenTree(inner: Tree, suffixes: seq<Suffix>)
    | ConvertTree(operand: Tree, target: nat)
    | UnaryTree(unary: UnaryOp, operand: Tree)
    | BinaryTree(binary: BinaryOp, left: Tree, right: Tree)

  datatype Suffix =
    | FieldSuffix(field: string)
    | BracketSuffix(index: Tree)
    | DotParenSuffix(index: Tree)

  /** The level a tree can stand at: 1 to 10 binary, 11 unary, 12 converted, 13 primary. */
  function Level(t: Tree): nat {
    match t
    case BinaryTree(op, _, _) => Precedence(op)
    case UnaryTree(_, _) => 11
    case ConvertTree(_, _) => 12
    case _ => 13
  }

  /** Whether a tree follows the grammar. */
  predicate Derivable(t: Tree)
    decreases t
  {
    match t
    case LiteralTree(_) => true
    case PlaceTree(_, suffixes) => forall i :: 0 <= i < |suffixes| ==> DerivableSuffix(suffixes[i])
    case CallTree(_, suffixes, arguments) =>
      && (forall i :: 0 <= i < |suffixes| ==> DerivableSuffix(suffixes[i]))
      && (forall i :: 0 <= i < |arguments| ==> Derivable(arguments[i]))
    case ParenTree(inner, suffixes) =>
      && Derivable(inner)
      && (suffixes != [] ==> IsPlaceDereference(Meaning(inner)))
      && (forall i :: 0 <= i < |suffixes| ==> !suffixes[i].DotParenSuffix? && DerivableSuffix(suffixes[i]))
    case ConvertTree(operand, _) => Derivable(operand) && Level(operand) >= 12
    case UnaryTree(_, operand) => Derivable(operand) && Level(operand) >= 11
    case BinaryTree(op, left, right) =>
      Derivable(left) && Derivable(right) && Level(left) >= Precedence(op) && Level(right) > Precedence(op)
  }

  predicate DerivableSuffix(s: Suffix)
    decreases s
  {
    match s
    case FieldSuffix(_) => true
    case BracketSuffix(index) => Derivable(index)
    case DotParenSuffix(index) => Derivable(index)
  }

  /** `*p` for a place `p`: parenthesised, it becomes a place itself. */
  predicate IsPlaceDereference(e: Expression) {
    e.Unary? && e.unary == Dereference && e.operand.Atom?
  }

  function Meaning(t: Tree): Expression
    decreases t
  {
    match t
    case LiteralTree(value) => Literal(value)
    case PlaceTree(name, suffixes) => Atom(Extended(Base(name), suffixes, 0))
    case CallTree(name, suffixes, arguments) => Call(Extended(Base(name), suffixes, 0), Meanings(arguments, 0))
    case ParenTree(inner, suffixes) =>
      var e := Meaning(inner);
      if IsPlaceDereference(e) then Atom(Extended(Pointee(e.operand.place), suffixes, 0)) else e
    case ConvertTree(operand, target) => Conversion(Meaning(operand), target)
    case UnaryTree(op, operand) => Unary(op, Meaning(operand))
    case BinaryTree(op, left, right) => Binary(op, Meaning(left), Meaning(right))
  }

  function Extended(p: Place, suffixes: seq<Suffix>, i: nat): Place
    decreases suffixes, |suffixes| - i
  {
    if i >= |suffixes| then p else Extended(ExtendedBy(p, suffixes[i]), suffixes, i + 1)
  }

  function ExtendedBy(p: Place, s: Suffix): Place
    decreases s
  {
    match s
    case FieldSuffix(field) => Field(p, field)
    case BracketSuffix(index) => Index(p, Meaning(index))
    case DotParenSuffix(index) => Index(p, Meaning(index))
  }

  function Meanings(ts: seq<Tree>, i: nat): (es: seq<Expression>)
    ensures i <= |ts| ==> |es| == |ts| - i
    decreases ts, |ts| - i
  {
    if i >= |ts| then [] else [Meaning(ts[i])] + Meanings(ts, i + 1)
  }

  // ----- spelling -----

  function UnaryTokens(op: UnaryOp): seq<Token> {
    match op
    case Not => [Sign(NotSign)]
    case BitNot => [Sign(TildeSign)]
    case Negate => [Sign(MinusSign)]
    case Address => [Sign(AndSign)]
    case AddressMutable => [Sign(AndSign), Sign(MutableWord)]
    case Dereference => [Sign(StarSign)]
  }

  /** The tokens of a tree, followed by `rest`. */
  function Spelled(t: Tree, rest: seq<Token>): seq<Token>
    decreases t
  {
    match t
    case LiteralTree(value) => [LiteralToken(value)] + rest
    case PlaceTree(name, suffixes) => [Identifier(name)] + SpelledSuffixes(suffixes, 0, rest)
    case CallTree(name, suffixes, arguments) =>
      [Identifier(name)] + SpelledSuffixes(suffixes, 0, [Sign(LeftParen)] + SpelledArguments(arguments, 0, [Sign(RightParen)] + rest))
    case ParenTree(inner, suffixes) =>
      [Sign(LeftParen)] + Spelled(inner, [Sign(RightParen)] + SpelledSuffixes(suffixes, 0, rest))
    case ConvertTree(operand, target) => Spelled(operand, [Sign(AsWord), TypeToken(target)] + rest)
    case UnaryTree(op, operand) => UnaryTokens(op) + Spelled(operand, rest)
    case BinaryTree(op, left, right) => Spelled(left, [BinaryToken(op)] + Spelled(right, rest))
  }

  function SpelledSuffixes(suffixes: seq<Suffix>, i: nat, rest: seq<Token>): seq<Token>
    decreases suffixes, |suffixes| - i
  {
    if i >= |suffixes| then rest else SpelledSuffix(suffixes[i], SpelledSuffixes(suffixes, i + 1, rest))
  }

  function SpelledSuffix(s: Suffix, rest: seq<Token>): seq<Token>
    decreases s
  {
    match s
    case FieldSuffix(field) => [Sign(DotSign), Identifier(field)] + rest
    case BracketSuffix(index) => [Sign(LeftBracket)] + Spelled(index, [Sign(RightBracket)] + rest)
    case DotParenSuffix(index) => [Sign(DotSign), Sign(LeftParen)] + Spelled(index, [Sign(RightParen)] + rest)
  }

  /** Arguments from `i` on, separated by commas. */
  function SpelledArguments(ts: seq<Tree>, i: nat, rest: seq<Token>): seq<Token>
    decreases ts, |ts| - i
  {
    if i >= |ts| then rest
    else Spelled(ts[i], (if i + 1 < |ts| then [Sign(CommaSign)] else []) + SpelledArguments(ts, i + 1, rest))
  }
}
