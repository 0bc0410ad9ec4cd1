/** The parser and the grammar agree: it parses every derivable spelling, and nothing else. */
module ExpressionParsing {
  import opened Options
  import opened ExpressionGrammar
  import opened ExpressionParser

  // ----- what may follow an expression -----

  predicate NoSuffix(ts: seq<Token>) {
    Head(ts) != Sign(DotSign) && Head(ts) != Sign(LeftBracket) && Head(ts) != Sign(LeftParen)
  }

  /** Nothing that a primary or a conversion would absorb. */
  predicate NoPostfix(ts: seq<Token>) {
    NoSuffix(ts) && Head(ts) != Sign(AsWord)
  }

  /** No binary operator that binds tighter than `level`. */
  predicate NotAbove(ts: seq<Token>, level: nat) {
    BinaryInfo(Head(ts)).Some? ==> BinaryInfo(Head(ts)).value.0 <= level
  }

  /** Nothing that would continue an expression parsed at minimum precedence `m`. */
  predicate Ends(ts: seq<Token>, m: nat) {
    NoPostfix(ts) && (BinaryInfo(Head(ts)).Some? ==> BinaryInfo(Head(ts)).value.0 < m)
  }

  lemma ConsIs(t: Token, ts: seq<Token>)
    ensures Head([t] + ts) == t && ([t] + ts)[1..] == ts
  {
  }

  lemma ConsTwo(a: Token, b: Token, ts: seq<Token>)
    ensures [a, b] + ts == [a] + ([b] + ts) && ([a, b] + ts)[2..] == ts && ([a, b] + ts)[1..] == [b] + ts
    ensures Head([a, b] + ts) == a && |[a, b] + ts| >= 2 && ([a, b] + ts)[1] == b
  {
  }

  /** An expression never starts with a closing sign or `mutable`. */
  lemma {:induction false} Starts(t: Tree, rest: seq<Token>)
    ensures Head(Spelled(t, rest)) !in {Sign(RightParen), Sign(MutableWord), Sign(RightBracket), EndOfFile}
    ensures Level(t) >= 12 && Derivable(t) ==> UnaryInfo(Head(Spelled(t, rest))).None?
    decreases t
  {
    match t
    case LiteralTree(_) =>
    case PlaceTree(_, _) =>
    case CallTree(_, _, _) =>
    case ParenTree(_, _) =>
    case ConvertTree(operand, target) => Starts(operand, [Sign(AsWord), TypeToken(target)] + rest);
    case UnaryTree(_, _) =>
    case BinaryTree(op, left, right) => Starts(left, [BinaryToken(op)] + Spelled(right, rest));
  }

  // ----- every derivable spelling is parsed -----

  lemma {:induction false} SuffixesParse(p: Place, suffixes: seq<Suffix>, i: nat, rest: seq<Token>, dotParen: bool)
    requires forall j :: i <= j < |suffixes| ==> DerivableSuffix(suffixes[j]) && (dotParen || !suffixes[j].DotParenSuffix?)
    requires Head(rest) != Sign(DotSign) && Head(rest) != Sign(LeftBracket)
    ensures ParseSuffixes(p, SpelledSuffixes(suffixes, i, rest), dotParen) == Parsed(Extended(p, suffixes, i), rest)
    decreases suffixes, |suffixes| - i
  {
    hide ParseSuffix, SpelledSuffix, ExtendedBy;
    if i < |suffixes| {
      var tail := SpelledSuffixes(suffixes, i + 1, rest);
      SuffixParses(p, suffixes[i], tail, dotParen);
      SuffixesParse(ExtendedBy(p, suffixes[i]), suffixes, i + 1, rest, dotParen);
    }
  }

  lemma {:induction false} SuffixParses(p: Place, s: Suffix, tail: seq<Token>, dotParen: bool)
    requires DerivableSuffix(s) && (dotParen || !s.DotParenSuffix?)
    ensures var ts := SpelledSuffix(s, tail);
            && (Head(ts) == Sign(DotSign) || Head(ts) == Sign(LeftBracket))
            && ParseSuffix(p, ts, dotParen) == Parsed(ExtendedBy(p, s), tail)
    decreases s, 1
  {
    hide ParseIndex, Spelled, Meaning;
    match s
    case FieldSuffix(field) => ConsTwo(Sign(DotSign), Identifier(field), tail);
    case BracketSuffix(index) =>
      ConsIs(Sign(LeftBracket), Spelled(index, [Sign(RightBracket)] + tail));
      IndexParses(p, index, tail, Sign(RightBracket));
    case DotParenSuffix(index) =>
      var inner := Spelled(index, [Sign(RightParen)] + tail);
      ConsTwo(Sign(DotSign), Sign(LeftParen), inner);
      ConsIs(Sign(LeftParen), inner);
      IndexParses(p, index, tail, Sign(RightParen));
  }

  lemma {:induction false} IndexParses(p: Place, t: Tree, tail: seq<Token>, close: Token)
    requires Derivable(t) && close in {Sign(RightParen), Sign(RightBracket)}
    ensures ParseIndex(p, Spelled(t, [close] + tail), close) == Parsed(Index(p, Meaning(t)), tail)
    decreases t, 6
  {
    hide Spelled, Meaning, ParseMin;
    ConsIs(close, tail);
    TreeEnds(t, [close] + tail);
  }

  /** A tree in brackets: what follows cannot continue it. */
  lemma {:induction false} TreeEnds(t: Tree, rest: seq<Token>)
    requires Derivable(t) && Head(rest) in {Sign(CommaSign), Sign(RightParen), Sign(RightBracket)}
    ensures ParseMin(Spelled(t, rest), 1) == Parsed(Meaning(t), rest)
    decreases t, 5
  {
    hide Spelled, Meaning, ParseMin;
    TreeParses(t, rest, 1);
  }

  lemma {:induction false} ArgumentsParse(ts: seq<Tree>, i: nat, rest: seq<Token>, found: seq<Expression>)
    requires i < |ts| && forall j :: i <= j < |ts| ==> Derivable(ts[j])
    ensures ParseArgumentList(SpelledArguments(ts, i, [Sign(RightParen)] + rest), found) == Parsed(found + Meanings(ts, i), rest)
    decreases ts, |ts| - i
  {
    var close := [Sign(RightParen)] + rest;
    ConsIs(Sign(RightParen), rest);
    var after := SpelledArguments(ts, i + 1, close);
    var e := Meaning(ts[i]);
    if i + 1 < |ts| {
      ConsIs(Sign(CommaSign), after);
      TreeEnds(ts[i], [Sign(CommaSign)] + after);
      ArgumentsParse(ts, i + 1, rest, found + [e]);
      assert found + [e] + Meanings(ts, i + 1) == found + Meanings(ts, i);
    } else {
      assert [] + after == close;
      TreeEnds(ts[i], close);
      assert Meanings(ts, i) == [e];
    }
  }

  lemma {:induction false} PrimaryParses(t: Tree, rest: seq<Token>)
    requires Derivable(t) && Level(t) == 13 && NoSuffix(rest)
    ensures ParsePrimary(Spelled(t, rest)) == Parsed(Meaning(t), rest)
    decreases t, 1
  {
    hide ParseSuffixes, ParseArguments, ParseMin, SpelledSuffixes, SpelledArguments;
    match t
    case LiteralTree(value) => ConsIs(LiteralToken(value), rest);
    case PlaceTree(name, suffixes) =>
      ConsIs(Identifier(name), SpelledSuffixes(suffixes, 0, rest));
      SuffixesParse(Base(name), suffixes, 0, rest, true);
    case CallTree(name, suffixes, arguments) =>
      var args := SpelledArguments(arguments, 0, [Sign(RightParen)] + rest);
      ConsIs(Sign(LeftParen), args);
      ConsIs(Identifier(name), SpelledSuffixes(suffixes, 0, [Sign(LeftParen)] + args));
      SuffixesParse(Base(name), suffixes, 0, [Sign(LeftParen)] + args, true);
      AllArgumentsParse(arguments, rest);
    case ParenTree(_, _) => ParenParses(t, rest);
    case _ =>
  }

  lemma {:induction false} ParenParses(t: Tree, rest: seq<Token>)
    requires t.ParenTree? && Derivable(t) && NoSuffix(rest)
    ensures ParsePrimary(Spelled(t, rest)) == Parsed(Meaning(t), rest)
    decreases t, 0
  {
    hide ParseSuffixes, ParseMin, SpelledSuffixes;
    var after := SpelledSuffixes(t.suffixes, 0, rest);
    ConsIs(Sign(RightParen), after);
    ConsIs(Sign(LeftParen), Spelled(t.inner, [Sign(RightParen)] + after));
    TreeEnds(t.inner, [Sign(RightParen)] + after);
    var e := Meaning(t.inner);
    if IsPlaceDereference(e) {
      SuffixesParse(Pointee(e.operand.place), t.suffixes, 0, rest, false);
    } else {
      NoSuffixes(t.suffixes, rest);
    }
  }

  lemma NoSuffixes(suffixes: seq<Suffix>, rest: seq<Token>)
    ensures suffixes == [] ==> SpelledSuffixes(suffixes, 0, rest) == rest
  {
  }

  lemma {:induction false} AllArgumentsParse(arguments: seq<Tree>, rest: seq<Token>)
    requires forall j :: 0 <= j < |arguments| ==> Derivable(arguments[j])
    ensures ParseArguments(SpelledArguments(arguments, 0, [Sign(RightParen)] + rest)) == Parsed(Meanings(arguments, 0), rest)
    decreases arguments, |arguments| + 1
  {
    hide ParseArgumentList;
    ConsIs(Sign(RightParen), rest);
    if arguments != [] {
      ArgumentsParse(arguments, 0, rest, []);
      assert [] + Meanings(arguments, 0) == Meanings(arguments, 0);
      Starts(arguments[0], (if 1 < |arguments| then [Sign(CommaSign)] else []) + SpelledArguments(arguments, 1, [Sign(RightParen)] + rest));
    }
  }

  lemma {:induction false} ConvertedParses(t: Tree, rest: seq<Token>)
    requires Derivable(t) && Level(t) >= 12 && NoSuffix(rest)
    ensures ParseUnary(Spelled(t, rest)) == Conversions(Meaning(t), rest)
    decreases t, 2
  {
    Starts(t, rest);
    if t.ConvertTree? {
      var tail := [Sign(AsWord), TypeToken(t.target)] + rest;
      ConsTwo(Sign(AsWord), TypeToken(t.target), rest);
      ConvertedParses(t.operand, tail);
    } else {
      PrimaryParses(t, rest);
    }
  }

  lemma SignStep(sign: Token, op: UnaryOp, ts: seq<Token>, e: Expression, rest: seq<Token>)
    requires UnaryInfo(sign) == Some(op) && op != AddressMutable
    requires ParseUnary(ts) == Parsed(e, rest) && Head(ts) != Sign(MutableWord) && Head(rest) != Sign(AsWord)
    ensures ParseUnary([sign] + ts) == Parsed(Unary(op, e), rest)
  {
    hide ParsePrimary, UnaryInfo;
    ConsIs(sign, ts);
  }

  lemma SignedStep(op: UnaryOp, ts: seq<Token>, e: Expression, rest: seq<Token>)
    requires ParseUnary(ts) == Parsed(e, rest) && Head(ts) != Sign(MutableWord) && Head(rest) != Sign(AsWord)
    requires op != AddressMutable
    ensures ParseUnary(UnaryTokens(op) + ts) == Parsed(Unary(op, e), rest)
  {
    hide ParseUnary;
    SignStep(UnaryTokens(op)[0], op, ts, e, rest);
  }

  lemma MutableStep(ts: seq<Token>, e: Expression, rest: seq<Token>)
    requires ParseUnary(ts) == Parsed(e, rest) && Head(rest) != Sign(AsWord)
    ensures ParseUnary(UnaryTokens(AddressMutable) + ts) == Parsed(Unary(AddressMutable, e), rest)
  {
    hide ParsePrimary;
    var all := [Sign(AndSign), Sign(MutableWord)] + ts;
    ConsTwo(Sign(AndSign), Sign(MutableWord), ts);
    ConsIs(Sign(MutableWord), ts);
    assert all[2..] == ts && Head(all) == Sign(AndSign) && Head(all[1..]) == Sign(MutableWord);
  }

  lemma {:induction false} UnaryParses(t: Tree, rest: seq<Token>)
    requires Derivable(t) && Level(t) >= 11 && NoPostfix(rest)
    ensures ParseUnary(Spelled(t, rest)) == Parsed(Meaning(t), rest)
    decreases t, 3
  {
    hide ParseUnary, UnaryTokens;
    if t.UnaryTree? {
      var ts := Spelled(t.operand, rest);
      UnaryParses(t.operand, rest);
      Starts(t.operand, rest);
      if t.unary == AddressMutable {
        MutableStep(ts, Meaning(t.operand), rest);
      } else {
        SignedStep(t.unary, ts, Meaning(t.operand), rest);
      }
    } else {
      ConvertedParses(t, rest);
    }
  }

  /** Parsing a spelled tree is having parsed it as the left operand of whatever follows. */
  lemma {:induction false} TreeParses(t: Tree, rest: seq<Token>, m: nat)
    requires Derivable(t) && Level(t) >= m && NoPostfix(rest) && NotAbove(rest, Level(t))
    ensures ParseMin(Spelled(t, rest), m) == Climb(Meaning(t), rest, m)
    decreases t, 4
  {
    if t.BinaryTree? {
      var p := Precedence(t.binary);
      var tail := Spelled(t.right, rest);
      ConsIs(BinaryToken(t.binary), tail);
      TreeParses(t.left, [BinaryToken(t.binary)] + tail, m);
      TreeParses(t.right, rest, p + 1);
    } else {
      UnaryParses(t, rest);
    }
  }

  /** Every derivable spelling is parsed to its meaning, and parsing stops at its end. */
  lemma DerivablesParse(t: Tree, rest: seq<Token>, m: nat)
    requires Derivable(t) && Level(t) >= m && Ends(rest, m)
    ensures ParseMin(Spelled(t, rest), m) == Parsed(Meaning(t), rest)
  {
    TreeParses(t, rest, m);
  }

  // ----- everything parsed is derivable -----

  lemma {:induction false} ShiftedSuffixes(s: Suffix, more: seq<Suffix>, i: nat, rest: seq<Token>, p: Place)
    ensures SpelledSuffixes([s] + more, i + 1, rest) == SpelledSuffixes(more, i, rest)
    ensures Extended(p, [s] + more, i + 1) == Extended(p, more, i)
    decreases |more| - i
  {
    if i < |more| {
      ShiftedSuffixes(s, more, i + 1, rest, ExtendedBy(p, more[i]));
    }
  }

  lemma SuffixesCons(s: Suffix, more: seq<Suffix>, rest: seq<Token>, p: Place)
    ensures SpelledSuffixes([s] + more, 0, rest) == SpelledSuffix(s, SpelledSuffixes(more, 0, rest))
    ensures Extended(p, [s] + more, 0) == Extended(ExtendedBy(p, s), more, 0)
  {
    ShiftedSuffixes(s, more, 0, rest, ExtendedBy(p, s));
  }

  lemma {:induction false} ShiftedArguments(t: Tree, more: seq<Tree>, i: nat, rest: seq<Token>)
    ensures SpelledArguments([t] + more, i + 1, rest) == SpelledArguments(more, i, rest)
    ensures Meanings([t] + more, i + 1) == Meanings(more, i)
    decreases |more| - i
  {
    hide Spelled, Meaning;
    var all := [t] + more;
    if i < |more| {
      assert all[i + 1] == more[i] && (i + 2 < |all| <==> i + 1 < |more|);
      ShiftedArguments(t, more, i + 1, rest);
    }
  }

  lemma TokensSplit(ts: seq<Token>)
    requires ts != []
    ensures ts == [Head(ts)] + ts[1..]
  {
  }

  /** No binary operator of precedence `m` or more comes next. */
  predicate Stops(ts: seq<Token>, m: nat) {
    BinaryInfo(Head(ts)).Some? ==> BinaryInfo(Head(ts)).value.0 < m
  }

  lemma {:induction false} MinDerives(ts: seq<Token>, m: nat) returns (t: Tree)
    requires ParseMin(ts, m).Parsed? && m <= 11
    ensures var r := ParseMin(ts, m);
            Derivable(t) && Level(t) >= m && Meaning(t) == r.value && Spelled(t, r.rest) == ts && Stops(r.rest, m)
    decreases |ts|, 4
  {
    hide ParseUnary;
    var left := UnaryDerives(ts);
    if BinaryInfo(Head(ParseUnary(ts).rest)).Some? {
      PrecedenceAtMost(Head(ParseUnary(ts).rest));
    }
    t := ClimbDerives(left, ParseUnary(ts).rest, m);
  }

  lemma PrecedenceAtMost(t: Token)
    requires BinaryInfo(t).Some?
    ensures BinaryInfo(t).value.0 <= 10
  {
  }

  lemma {:induction false} ClimbDerives(left: Tree, ts: seq<Token>, m: nat) returns (t: Tree)
    requires Climb(Meaning(left), ts, m).Parsed? && m <= 11
    requires Derivable(left) && Level(left) >= m && NotAbove(ts, Level(left))
    ensures var r := Climb(Meaning(left), ts, m);
            && Derivable(t) && Level(t) >= m && Meaning(t) == r.value
            && Spelled(t, r.rest) == Spelled(left, ts) && Stops(r.rest, m)
    decreases |ts|, 5
  {
    hide ParseMin;
    if BinaryInfo(Head(ts)).Some? && BinaryInfo(Head(ts)).value.0 >= m {
      var (p, op) := BinaryInfo(Head(ts)).value;
      PrecedenceAtMost(Head(ts));
      BinaryInfoIs(Head(ts));
      TokensSplit(ts);
      var right := MinDerives(ts[1..], p + 1);
      t := ClimbDerives(BinaryTree(op, left, right), ParseMin(ts[1..], p + 1).rest, m);
    } else {
      t := left;
    }
  }

  lemma {:induction false} ConversionsDerive(base: Tree, ts: seq<Token>) returns (t: Tree)
    requires Conversions(Meaning(base), ts).Parsed? && Derivable(base) && Level(base) >= 12
    ensures var r := Conversions(Meaning(base), ts);
            && Derivable(t) && Level(t) >= 12 && Meaning(t) == r.value
            && Spelled(t, r.rest) == Spelled(base, ts) && Head(r.rest) != Sign(AsWord)
    decreases |ts|
  {
    if Head(ts) == Sign(AsWord) {
      assert ts == [Sign(AsWord), TypeToken(ts[1].id)] + ts[2..];
      t := ConversionsDerive(ConvertTree(base, ts[1].id), ts[2..]);
    } else {
      t := base;
    }
  }

  lemma UnaryTokensSplit(ts: seq<Token>, op: UnaryOp)
    requires UnaryInfo(Head(ts)) == Some(op)
    ensures op != AddressMutable && UnaryTokens(op) == [Head(ts)] && ts == UnaryTokens(op) + ts[1..]
  {
  }

  lemma MutableSplit(ts: seq<Token>)
    requires Head(ts) == Sign(AndSign) && Head(ts[1..]) == Sign(MutableWord)
    ensures |ts| >= 2 && ts == UnaryTokens(AddressMutable) + ts[2..]
  {
    assert ts[1..][0] == ts[1];
  }

  lemma {:induction false} UnaryDerives(ts: seq<Token>) returns (t: Tree)
    requires ParseUnary(ts).Parsed?
    ensures var r := ParseUnary(ts);
            && Derivable(t) && Level(t) >= 11 && Meaning(t) == r.value && Spelled(t, r.rest) == ts
            && Head(r.rest) != Sign(AsWord)
    decreases |ts|, 3
  {
    hide ParsePrimary, UnaryTokens;
    match UnaryInfo(Head(ts))
    case None =>
      var base := PrimaryDerives(ts);
      t := ConversionsDerive(base, ParsePrimary(ts).rest);
    case Some(op) =>
      UnaryTokensSplit(ts, op);
      if op == Address && Head(ts[1..]) == Sign(MutableWord) {
        AddressIs(ts);
        MutableSplit(ts);
        var operand := UnaryDerives(ts[2..]);
        t := UnaryTree(AddressMutable, operand);
      } else {
        var operand := UnaryDerives(ts[1..]);
        t := UnaryTree(op, operand);
      }
  }

  lemma AddressIs(ts: seq<Token>)
    requires UnaryInfo(Head(ts)) == Some(Address)
    ensures Head(ts) == Sign(AndSign)
  {
  }

  lemma {:induction false} PrimaryDerives(ts: seq<Token>) returns (t: Tree)
    requires ParsePrimary(ts).Parsed?
    ensures var r := ParsePrimary(ts);
            Derivable(t) && Level(t) == 13 && Meaning(t) == r.value && Spelled(t, r.rest) == ts
    decreases |ts|, 2
  {
    hide ParseMin, ParseSuffixes, ParseArguments;
    TokensSplit(ts);
    match Head(ts)
    case Sign(LeftParen) =>
      var inner := MinDerives(ts[1..], 1);
      var r := ParseMin(ts[1..], 1);
      TokensSplit(r.rest);
      if IsPlaceDereference(r.value) {
        var suffixes := SuffixesDerive(Pointee(r.value.operand.place), r.rest[1..], false);
        t := ParenTree(inner, suffixes);
      } else {
        t := ParenTree(inner, []);
      }
    case Identifier(name) =>
      var suffixes := SuffixesDerive(Base(name), ts[1..], true);
      var r := ParseSuffixes(Base(name), ts[1..], true);
      if Head(r.rest) == Sign(LeftParen) {
        TokensSplit(r.rest);
        var arguments := ArgumentsDerive(r.rest[1..]);
        t := CallTree(name, suffixes, arguments);
      } else {
        t := PlaceTree(name, suffixes);
      }
    case LiteralToken(value) => t := LiteralTree(value);
    case _ =>
  }

  lemma {:induction false} SuffixesDerive(p: Place, ts: seq<Token>, dotParen: bool) returns (suffixes: seq<Suffix>)
    requires ParseSuffixes(p, ts, dotParen).Parsed?
    ensures var r := ParseSuffixes(p, ts, dotParen);
            && (forall i :: 0 <= i < |suffixes| ==> DerivableSuffix(suffixes[i]) && (dotParen || !suffixes[i].DotParenSuffix?))
            && Extended(p, suffixes, 0) == r.value && SpelledSuffixes(suffixes, 0, r.rest) == ts
    decreases |ts|, 1
  {
    hide ParseSuffix, SpelledSuffix, ExtendedBy, DerivableSuffix;
    if Head(ts) == Sign(DotSign) || Head(ts) == Sign(LeftBracket) {
      var s := SuffixDerives(p, ts, dotParen);
      var r := ParseSuffix(p, ts, dotParen);
      var more := SuffixesDerive(r.value, r.rest, dotParen);
      SuffixesCons(s, more, ParseSuffixes(r.value, r.rest, dotParen).rest, p);
      suffixes := [s] + more;
    } else {
      suffixes := [];
    }
  }

  lemma {:induction false} SuffixDerives(p: Place, ts: seq<Token>, dotParen: bool) returns (s: Suffix)
    requires Head(ts) == Sign(DotSign) || Head(ts) == Sign(LeftBracket)
    requires ParseSuffix(p, ts, dotParen).Parsed?
    ensures var r := ParseSuffix(p, ts, dotParen);
            && DerivableSuffix(s) && (dotParen || !s.DotParenSuffix?)
            && ExtendedBy(p, s) == r.value && SpelledSuffix(s, r.rest) == ts
    decreases |ts|, 0
  {
    hide ParseIndex;
    TokensSplit(ts);
    if Head(ts) == Sign(LeftBracket) {
      var index := IndexDerives(p, ts[1..], Sign(RightBracket));
      s := BracketSuffix(index);
    } else if dotParen && Head(ts[1..]) == Sign(LeftParen) {
      assert ts == [Sign(DotSign), Sign(LeftParen)] + ts[2..];
      var index := IndexDerives(p, ts[2..], Sign(RightParen));
      s := DotParenSuffix(index);
    } else {
      assert ts == [Sign(DotSign), Identifier(ts[1].name)] + ts[2..];
      s := FieldSuffix(ts[1].name);
    }
  }

  lemma {:induction false} IndexDerives(p: Place, ts: seq<Token>, close: Token) returns (t: Tree)
    requires ParseIndex(p, ts, close).Parsed?
    ensures var r := ParseIndex(p, ts, close);
            Derivable(t) && Index(p, Meaning(t)) == r.value && Spelled(t, [close] + r.rest) == ts
    decreases |ts|, 5
  {
    hide ParseMin;
    t := MinDerives(ts, 1);
    TokensSplit(ParseMin(ts, 1).rest);
  }

  lemma {:induction false} ArgumentsDerive(ts: seq<Token>) returns (arguments: seq<Tree>)
    requires ParseArguments(ts).Parsed?
    ensures var r := ParseArguments(ts);
            && (forall i :: 0 <= i < |arguments| ==> Derivable(arguments[i]))
            && Meanings(arguments, 0) == r.value && SpelledArguments(arguments, 0, [Sign(RightParen)] + r.rest) == ts
    decreases |ts|, 6
  {
    hide ParseArgumentList;
    if Head(ts) == Sign(RightParen) {
      TokensSplit(ts);
      arguments := [];
    } else {
      arguments := ArgumentListDerives(ts, []);
      assert [] + Meanings(arguments, 0) == Meanings(arguments, 0);
    }
  }

  lemma {:induction false} ArgumentListDerives(ts: seq<Token>, found: seq<Expression>) returns (arguments: seq<Tree>)
    requires ParseArgumentList(ts, found).Parsed?
    ensures var r := ParseArgumentList(ts, found);
            && arguments != [] && (forall i :: 0 <= i < |arguments| ==> Derivable(arguments[i]))
            && found + Meanings(arguments, 0) == r.value
            && SpelledArguments(arguments, 0, [Sign(RightParen)] + r.rest) == ts
    decreases |ts|, 5
  {
    hide ParseMin;
    var first := MinDerives(ts, 1);
    var r := ParseMin(ts, 1);
    TokensSplit(r.rest);
    if Head(r.rest) == Sign(CommaSign) {
      var more := ArgumentListDerives(r.rest[1..], found + [r.value]);
      var close := [Sign(RightParen)] + ParseArgumentList(r.rest[1..], found + [r.value]).rest;
      ShiftedArguments(first, more, 0, close);
      arguments := [first] + more;
      assert found + [r.value] + Meanings(more, 0) == found + ([r.value] + Meanings(more, 0));
    } else {
      arguments := [first];
      assert SpelledArguments(arguments, 1, r.rest) == r.rest;
      assert [] + r.rest == r.rest;
      assert Meanings(arguments, 0) == [r.value];
    }
  }

  /**
   The parser accepts exactly the language of the grammar: a token string is a whole expression if and only if some
   derivable tree spells it, and then the result is what that tree means.
   */
  lemma ParserIsGrammar(ts: seq<Token>, e: Expression)
    ensures ParseMin(ts, 1) == Parsed(e, []) <==> exists t :: Derivable(t) && Spelled(t, []) == ts && Meaning(t) == e
  {
    hide ParseMin, Spelled, Meaning, Derivable;
    if ParseMin(ts, 1) == Parsed(e, []) {
      var t := MinDerives(ts, 1);
      assert Derivable(t) && Spelled(t, []) == ts && Meaning(t) == e;
    }
    if exists t :: Derivable(t) && Spelled(t, []) == ts && Meaning(t) == e {
      var t :| Derivable(t) && Spelled(t, []) == ts && Meaning(t) == e;
      LevelAtLeast(t);
      DerivablesParse(t, [], 1);
    }
  }

  lemma LevelAtLeast(t: Tree)
    ensures Level(t) >= 1
  {
  }

  /** The grammar is unambiguous: trees with the same spelling mean the same. */
  lemma Unambiguous(t: Tree, u: Tree)
    requires Derivable(t) && Derivable(u) && Spelled(t, []) == Spelled(u, [])
    ensures Meaning(t) == Meaning(u)
  {
    hide ParseMin, Spelled, Meaning, Derivable;
    LevelAtLeast(t);
    LevelAtLeast(u);
    DerivablesParse(t, [], 1);
    DerivablesParse(u, [], 1);
  }
}
