/** The expression parser on token sequences: precedence climbing, unary operators, conversions, places. */
module ExpressionParser {
  import opened ExpressionGrammar

  datatype Parsed<+T> = Failed | Parsed(value: T, rest: seq<Token>)

  function Head(ts: seq<Token>): Token {
    if ts == [] then EndOfFile else ts[0]
  }

  /** An expression whose binary operators all have precedence `m` or more. */
  function ParseMin(ts: seq<Token>, m: nat): (r: Parsed<Expression>)
    ensures r.Parsed? ==> |r.rest| < |ts|
    decreases |ts|, 4
  {
    match ParseUnary(ts)
    case Failed => Failed
    case Parsed(left, rest) => Climb(left, rest, m)
  }

  function Climb(left: Expression, ts: seq<Token>, m: nat): (r: Parsed<Expression>)
    ensures r.Parsed? ==> |r.rest| <= |ts|
    decreases |ts|, 5
  {
    match BinaryInfo(Head(ts))
    case None => Parsed(left, ts)
    case Some((p, op)) =>
      if p < m then Parsed(left, ts)
      else
        match ParseMin(ts[1..], p + 1)
        case Failed => Failed
        case Parsed(right, rest) => Climb(Binary(op, left, right), rest, m)
  }

  function ParseUnary(ts: seq<Token>): (r: Parsed<Expression>)
    ensures r.Parsed? ==> |r.rest| < |ts|
    decreases |ts|, 3
  {
    match UnaryInfo(Head(ts))
    case None =>
      (match ParsePrimary(ts)
       case Failed => Failed
       case Parsed(e, rest) => Conversions(e, rest))
    case Some(op) =>
      var mutable := op == Address && Head(ts[1..]) == Sign(MutableWord);
      match ParseUnary(if mutable then ts[2..] else ts[1..])
      case Failed => Failed
      case Parsed(e, rest) => Conversions(Unary(if mutable then AddressMutable else op, e), rest)
  }

  function Conversions(e: Expression, ts: seq<Token>): (r: Parsed<Expression>)
    ensures r.Parsed? ==> |r.rest| <= |ts|
    decreases |ts|
  {
    if Head(ts) != Sign(AsWord) then Parsed(e, ts)
    else if |ts| < 2 || !ts[1].TypeToken? then Failed
    else Conversions(Conversion(e, ts[1].id), ts[2..])
  }

  function ParsePrimary(ts: seq<Token>): (r: Parsed<Expression>)
    ensures r.Parsed? ==> |r.rest| < |ts|
    decreases |ts|, 2
  {
    match Head(ts)
    case Sign(LeftParen) =>
      (match ParseMin(ts[1..], 1)
       case Failed => Failed
       case Parsed(e, rest) =>
         if Head(rest) != Sign(RightParen) then Failed
         else if !IsPlaceDereference(e) then Parsed(e, rest[1..])
         else
           match ParseSuffixes(Pointee(e.operand.place), rest[1..], false)
           case Failed => Failed
           case Parsed(p, after) => Parsed(Atom(p), after))
    case Identifier(name) =>
      (match ParseSuffixes(Base(name), ts[1..], true)
       case Failed => Failed
       case Parsed(p, rest) =>
         if Head(rest) != Sign(LeftParen) then Parsed(Atom(p), rest)
         else
           match ParseArguments(rest[1..])
           case Failed => Failed
           case Parsed(arguments, after) => Parsed(Call(p, arguments), after))
    case LiteralToken(value) => Parsed(Literal(value), ts[1..])
    case _ => Failed
  }

  /** Extends a place by fields and indices; `.(index)` only where `dotParen`. */
  function ParseSuffixes(p: Place, ts: seq<Token>, dotParen: bool): (r: Parsed<Place>)
    ensures r.Parsed? ==> |r.rest| <= |ts|
    decreases |ts|, 1
  {
    if Head(ts) != Sign(DotSign) && Head(ts) != Sign(LeftBracket) then Parsed(p, ts)
    else
      match ParseSuffix(p, ts, dotParen)
      case Failed => Failed
      case Parsed(q, rest) => ParseSuffixes(q, rest, dotParen)
  }

  /** One field or index. */
  function ParseSuffix(p: Place, ts: seq<Token>, dotParen: bool): (r: Parsed<Place>)
    requires Head(ts) == Sign(DotSign) || Head(ts) == Sign(LeftBracket)
    ensures r.Parsed? ==> |r.rest| < |ts|
    decreases |ts|, 0
  {
    if Head(ts) == Sign(LeftBracket) then ParseIndex(p, ts[1..], Sign(RightBracket))
    else if dotParen && Head(ts[1..]) == Sign(LeftParen) then ParseIndex(p, ts[2..], Sign(RightParen))
    else if !Head(ts[1..]).Identifier? then Failed
    else Parsed(Field(p, ts[1].name), ts[2..])
  }

  /** An index up to its closing sign. */
  function ParseIndex(p: Place, ts: seq<Token>, close: Token): (r: Parsed<Place>)
    ensures r.Parsed? ==> |r.rest| < |ts|
    decreases |ts|, 5
  {
    match ParseMin(ts, 1)
    case Failed => Failed
    case Parsed(e, rest) => if rest == [] || Head(rest) != close then Failed else Parsed(Index(p, e), rest[1..])
  }

  function ParseArguments(ts: seq<Token>): (r: Parsed<seq<Expression>>)
    ensures r.Parsed? ==> |r.rest| < |ts|
    decreases |ts|, 6
  {
    if Head(ts) == Sign(RightParen) then Parsed([], ts[1..]) else ParseArgumentList(ts, [])
  }

  function ParseArgumentList(ts: seq<Token>, found: seq<Expression>): (r: Parsed<seq<Expression>>)
    ensures r.Parsed? ==> |r.rest| < |ts|
    decreases |ts|, 5
  {
    match ParseMin(ts, 1)
    case Failed => Failed
    case Parsed(e, rest) =>
      if Head(rest) == Sign(CommaSign) then ParseArgumentList(rest[1..], found + [e])
      else if Head(rest) == Sign(RightParen) then Parsed(found + [e], rest[1..])
      else Failed
  }

  /** An assignable place: a name or a parenthesised dereference, with its fields and indices. */
  function ParseLvalue(ts: seq<Token>): (r: Parsed<Place>)
    ensures r.Parsed? ==> |r.rest| < |ts|
    decreases |ts|, 6
  {
    match Head(ts)
    case Sign(LeftParen) =>
      if Head(ts[1..]) != Sign(StarSign) then Failed else
      (match ParseLvalue(ts[2..])
       case Failed => Failed
       case Parsed(p, rest) =>
         if Head(rest) != Sign(RightParen) then Failed else ParseSuffixes(Pointee(p), rest[1..], true))
    case Identifier(name) => ParseSuffixes(Base(name), ts[1..], true)
    case _ => Failed
  }
}
