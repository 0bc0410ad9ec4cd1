/**
 The parser itself: a window of three tokens over the lexer, moved in place. Every method is proved to return
 what the parser on token sequences returns and to stop at the same token.
 */
module ParserCursor {
  import opened Options
  import opened ExpressionGrammar
  import opened ExpressionParser

  class Parser {
    /** The tokens the lexer yields before the end of the file. */
    const stream: seq<Token>
    var lexed: nat
    var previous: Token
    var current: Token
    var next: Token
    ghost var at: nat

    ghost predicate Valid()
      reads this
    {
      && at <= |stream| && EndOfFile !in stream
      && current == TokenAt(at) && next == TokenAt(at + 1)
      && lexed == if at + 2 <= |stream| then at + 2 else |stream|
    }

    ghost function TokenAt(i: nat): Token {
      if i < |stream| then stream[i] else EndOfFile
    }

    /** The tokens from the current one on. */
    ghost function Rest(): (r: seq<Token>)
      requires Valid()
      reads this
      ensures Head(r) == current && |r| == |stream| - at
      ensures |r| > 0 <==> current != EndOfFile
    {
      stream[at..]
    }

    constructor (tokens: seq<Token>)
      requires EndOfFile !in tokens
      ensures Valid() && Rest() == tokens
    {
      stream := tokens;
      lexed := 0;
      at := 0;
      new;
      current := ReadToken();
      next := ReadToken();
      previous := current;
    }

    method ReadToken() returns (t: Token)
      requires lexed <= |stream|
      modifies this`lexed
      ensures t == TokenAt(old(lexed)) && lexed == if old(lexed) < |stream| then old(lexed) + 1 else |stream|
    {
      t := EndOfFile;
      if lexed < |stream| {
        t := stream[lexed];
        lexed := lexed + 1;
      }
    }

    method Advance()
      requires Valid()
      modifies this
      ensures Valid() && previous == old(current)
      ensures Rest() == if old(current) == EndOfFile then old(Rest()) else old(Rest())[1..]
    {
      previous := current;
      current := next;
      if at < |stream| {
        at := at + 1;
      }
      if current == EndOfFile {
        next := current;
      } else {
        next := ReadToken();
      }
    }

    method Accept(t: Token) returns (accepted: bool)
      requires Valid() && t != EndOfFile
      modifies this
      ensures Valid() && (accepted <==> Head(old(Rest())) == t)
      ensures Rest() == if accepted then old(Rest())[1..] else old(Rest())
    {
      accepted := current == t;
      if accepted {
        Advance();
      }
    }

    /** What a parsing method has done, given the specified result. */
    ghost predicate Gives<T>(r: Option<T>, spec: Parsed<T>)
      reads this
    {
      Valid() && match spec
                 case Failed => r.None?
                 case Parsed(value, rest) => r == Some(value) && Rest() == rest
    }

    // ----- expressions -----

    lemma MinIs(ts: seq<Token>, m: nat)
      ensures ParseMin(ts, m) ==
              match ParseUnary(ts)
              case Failed => Failed
              case Parsed(left, rest) => Climb(left, rest, m)
    {
    }

    lemma ClimbIs(left: Expression, ts: seq<Token>, m: nat)
      ensures Climb(left, ts, m) ==
              match BinaryInfo(Head(ts))
              case None => Parsed(left, ts)
              case Some((p, op)) =>
                if p < m then Parsed(left, ts)
                else
                  match ParseMin(ts[1..], p + 1)
                  case Failed => Failed
                  case Parsed(right, rest) => Climb(Binary(op, left, right), rest, m)
    {
    }

    method ParseExpressionMin(minimum: nat) returns (r: Option<Expression>)
      requires Valid()
      modifies this
      ensures Gives(r, ParseMin(old(Rest()), minimum))
      decreases |Rest()|, 4
    {
      hide ParseUnary, Climb, ParseMin;
      MinIs(Rest(), minimum);
      var left := ParseUnaryExpression();
      if left.None? {
        return None;
      }
      ghost var spec := ParseMin(old(Rest()), minimum);
      while true
        invariant Valid() && left.Some? && |Rest()| < |old(Rest())|
        invariant spec == Climb(left.value, Rest(), minimum)
        decreases |Rest()|
      {
        ClimbIs(left.value, Rest(), minimum);
        var info := BinaryInfo(current);
        if info.None? || info.value.0 < minimum {
          break;
        }
        Advance();
        var right := ParseExpressionMin(info.value.0 + 1);
        if right.None? {
          return None;
        }
        left := Some(Binary(info.value.1, left.value, right.value));
      }
      r := left;
    }

    method ParseExplicitConversions(e: Expression) returns (r: Option<Expression>)
      requires Valid()
      modifies this
      ensures Gives(r, Conversions(e, old(Rest())))
      decreases |Rest()|
    {
      var converted := e;
      while current == Sign(AsWord)
        invariant Valid() && |Rest()| <= |old(Rest())|
        invariant Conversions(e, old(Rest())) == Conversions(converted, Rest())
        decreases |Rest()|
      {
        ghost var ts := Rest();
        Advance();
        assert |ts| >= 2 ==> Head(ts[1..]) == ts[1];
        if !current.TypeToken? {
          return None;
        }
        converted := Conversion(converted, current.id);
        Advance();
        assert ts[1..][1..] == ts[2..];
      }
      r := Some(converted);
    }

    method ParseUnaryExpression() returns (r: Option<Expression>)
      requires Valid()
      modifies this
      ensures Gives(r, ParseUnary(old(Rest())))
      decreases |Rest()|, 3
    {
      hide ParsePrimary;
      var op := UnaryInfo(current);
      if op.None? {
        var e := ParsePrimaryExpression();
        if e.None? {
          return None;
        }
        r := ParseExplicitConversions(e.value);
        return;
      }
      ghost var ts := Rest();
      Advance();
      var operation := op.value;
      if operation == Address && current == Sign(MutableWord) {
        operation := AddressMutable;
        Advance();
        assert ts[1..][1..] == ts[2..];
      }
      var operand := ParseUnaryExpression();
      if operand.None? {
        return None;
      }
      r := ParseExplicitConversions(Unary(operation, operand.value));
    }

    method ParsePrimaryExpression() returns (r: Option<Expression>)
      requires Valid()
      modifies this
      ensures Gives(r, ParsePrimary(old(Rest())))
      decreases |Rest()|, 2
    {
      hide ParseMin, ParseSuffixes, ParseArguments;
      match current
      case Sign(LeftParen) =>
        Advance();
        var e := ParseExpressionMin(1);
        if e.None? {
          return None;
        }
        var closed := Accept(Sign(RightParen));
        if !closed {
          return None;
        }
        if !IsPlaceDereference(e.value) {
          return e;
        }
        var p := ParsePostfix(Pointee(e.value.operand.place), false);
        if p.None? {
          return None;
        }
        r := Some(Atom(p.value));
      case Identifier(name) =>
        Advance();
        var p := ParsePostfix(Base(name), true);
        if p.None? {
          return None;
        }
        var called := Accept(Sign(LeftParen));
        if !called {
          return Some(Atom(p.value));
        }
        var arguments := ParseCallArguments();
        if arguments.None? {
          return None;
        }
        r := Some(Call(p.value, arguments.value));
      case LiteralToken(value) =>
        Advance();
        r := Some(Literal(value));
      case _ => r := None;
    }

    /** The fields and indices that follow a place. */
    method ParsePostfix(start: Place, dotParen: bool) returns (r: Option<Place>)
      requires Valid()
      modifies this
      ensures Gives(r, ParseSuffixes(start, old(Rest()), dotParen))
      decreases |Rest()|, 1
    {
      hide ParseSuffix;
      var p := start;
      ghost var spec := ParseSuffixes(start, Rest(), dotParen);
      while current == Sign(DotSign) || current == Sign(LeftBracket)
        invariant Valid() && |Rest()| <= |old(Rest())|
        invariant spec == ParseSuffixes(p, Rest(), dotParen)
        decreases |Rest()|
      {
        var extended := ParseOneSuffix(p, dotParen);
        if extended.None? {
          return None;
        }
        p := extended.value;
      }
      r := Some(p);
    }

    method ParseOneSuffix(p: Place, dotParen: bool) returns (r: Option<Place>)
      requires Valid() && (current == Sign(DotSign) || current == Sign(LeftBracket))
      modifies this
      ensures Gives(r, ParseSuffix(p, old(Rest()), dotParen))
      decreases |Rest()|, 0
    {
      hide ExpressionParser.ParseIndex;
      ghost var ts := Rest();
      var dotted := Accept(Sign(DotSign));
      if !dotted {
        Advance();
        r := ParseIndexUntil(p, Sign(RightBracket));
        return;
      }
      if dotParen {
        var indexed := Accept(Sign(LeftParen));
        if indexed {
          assert ts[1..][1..] == ts[2..];
          r := ParseIndexUntil(p, Sign(RightParen));
          return;
        }
      }
      if !current.Identifier? {
        return None;
      }
      assert ts[1..][0] == ts[1];
      r := Some(Field(p, current.name));
      Advance();
      assert ts[1..][1..] == ts[2..];
    }

    /** An index expression up to its closing sign. */
    method ParseIndexUntil(p: Place, close: Token) returns (r: Option<Place>)
      requires Valid() && close != EndOfFile
      modifies this
      ensures Gives(r, ExpressionParser.ParseIndex(p, old(Rest()), close))
      decreases |Rest()|, 5
    {
      hide ParseMin;
      var index := ParseExpressionMin(1);
      if index.None? {
        return None;
      }
      var closed := Accept(close);
      r := if closed then Some(Index(p, index.value)) else None;
    }

    method ParseCallArguments() returns (r: Option<seq<Expression>>)
      requires Valid()
      modifies this
      ensures Gives(r, ParseArguments(old(Rest())))
      decreases |Rest()|, 6
    {
      hide ParseMin;
      var arguments := [];
      if current != Sign(RightParen) {
        ghost var spec := ParseArguments(Rest());
        while true
          invariant Valid() && |Rest()| <= |old(Rest())|
          invariant spec == ParseArgumentList(Rest(), arguments)
          decreases |Rest()|
        {
          var argument := ParseExpressionMin(1);
          if argument.None? {
            return None;
          }
          ghost var found := arguments;
          arguments := arguments + [argument.value];
          var more := Accept(Sign(CommaSign));
          if !more {
            var closed := Accept(Sign(RightParen));
            return if closed then Some(arguments) else None;
          }
        }
      }
      var closed := Accept(Sign(RightParen));
      r := Some(arguments);
    }

    // ----- places -----

    lemma LvalueIs(ts: seq<Token>)
      ensures ParseLvalue(ts) ==
              match Head(ts)
              case Sign(LeftParen) =>
                if Head(ts[1..]) != Sign(StarSign) then Failed else
                (match ParseLvalue(ts[2..])
                 case Failed => Failed
                 case Parsed(p, rest) =>
                   if Head(rest) != Sign(RightParen) then Failed else ParseSuffixes(Pointee(p), rest[1..], true))
              case Identifier(name) => ParseSuffixes(Base(name), ts[1..], true)
              case _ => Failed
    {
    }

    method ParseAssignablePlace() returns (r: Option<Place>)
      requires Valid()
      modifies this
      ensures Gives(r, ParseLvalue(old(Rest())))
      decreases |Rest()|, 6
    {
      hide ParseSuffixes, ParseLvalue;
      ghost var ts := Rest();
      LvalueIs(ts);
      match current
      case Sign(LeftParen) =>
        Advance();
        var starred := Accept(Sign(StarSign));
        if !starred {
          return None;
        }
        assert ts[1..][1..] == ts[2..];
        var parent := ParseAssignablePlace();
        if parent.None? {
          return None;
        }
        var closed := Accept(Sign(RightParen));
        if !closed {
          return None;
        }
        r := ParsePostfix(Pointee(parent.value), true);
      case Identifier(name) =>
        Advance();
        r := ParsePostfix(Base(name), true);
      case _ => r := None;
    }
  }
}
