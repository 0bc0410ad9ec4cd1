/** Printing with the fewest parentheses the grammar allows, and the round trip through the parser. */
module ExpressionPrinting {
  import opened ExpressionGrammar
  import opened ExpressionParser
  import opened ExpressionParsing

  // ----- which expressions can be written -----

  /** A place that starts at a name. */
  predicate StartsAtName(p: Place)
    decreases p
  {
    match p
    case Base(_) => true
    case Field(parent, _) => StartsAtName(parent)
    case Index(parent, _) => StartsAtName(parent)
    case Pointee(_) => false
  }

  /**
   The expressions a spelling can mean: a call names a function without dereferencing, and a conversion is never
   applied to a bare dereference of a place, which in parentheses would become a place.
   */
  predicate Canonical(e: Expression)
    decreases e
  {
    match e
    case Literal(_) => true
    case Atom(p) => CanonicalPlace(p)
    case Call(f, arguments) =>
      StartsAtName(f) && CanonicalPlace(f) && forall i :: 0 <= i < |arguments| ==> Canonical(arguments[i])
    case Unary(_, operand) => Canonical(operand)
    case Binary(_, left, right) => Canonical(left) && Canonical(right)
    case Conversion(operand, _) => Canonical(operand) && !IsPlaceDereference(operand)
  }

  predicate CanonicalPlace(p: Place)
    decreases p
  {
    match p
    case Base(_) => true
    case Field(parent, _) => CanonicalPlace(parent)
    case Index(parent, index) => CanonicalPlace(parent) && Canonical(index)
    case Pointee(parent) => CanonicalPlace(parent)
  }

  // ----- printing -----

  /** The tree of an expression, with parentheses only where a level demands them. */
  function TreeOf(e: Expression): Tree
    decreases e
  {
    match e
    case Literal(value) => LiteralTree(value)
    case Atom(p) => PlaceTreeOf(p, [])
    case Call(f, arguments) => CallTree(RootName(f), SuffixesOf(f, []), TreesOf(arguments, 0))
    case Unary(op, operand) => UnaryTree(op, Wrapped(TreeOf(operand), 11))
    case Binary(op, left, right) =>
      BinaryTree(op, Wrapped(TreeOf(left), Precedence(op)), Wrapped(TreeOf(right), Precedence(op) + 1))
    case Conversion(operand, target) => ConvertTree(Wrapped(TreeOf(operand), 12), target)
  }

  function Wrapped(t: Tree, level: nat): Tree {
    if Level(t) >= level then t else ParenTree(t, [])
  }

  function TreesOf(es: seq<Expression>, i: nat): (ts: seq<Tree>)
    ensures i <= |es| ==> |ts| == |es| - i
    decreases es, |es| - i
  {
    if i >= |es| then [] else [TreeOf(es[i])] + TreesOf(es, i + 1)
  }

  /** A place followed by further suffixes. */
  function PlaceTreeOf(p: Place, suffixes: seq<Suffix>): Tree
    decreases p
  {
    match p
    case Base(name) => PlaceTree(name, suffixes)
    case Field(parent, field) => PlaceTreeOf(parent, [FieldSuffix(field)] + suffixes)
    case Index(parent, index) => PlaceTreeOf(parent, [BracketSuffix(TreeOf(index))] + suffixes)
    case Pointee(parent) => ParenTree(UnaryTree(Dereference, PlaceTreeOf(parent, [])), suffixes)
  }

  function RootName(p: Place): string {
    match p
    case Base(name) => name
    case Field(parent, _) => RootName(parent)
    case Index(parent, _) => RootName(parent)
    case Pointee(parent) => RootName(parent)
  }

  function SuffixesOf(p: Place, suffixes: seq<Suffix>): seq<Suffix>
    decreases p
  {
    match p
    case Field(parent, field) => SuffixesOf(parent, [FieldSuffix(field)] + suffixes)
    case Index(parent, index) => SuffixesOf(parent, [BracketSuffix(TreeOf(index))] + suffixes)
    case _ => suffixes
  }

  function Print(e: Expression): seq<Token> {
    Spelled(TreeOf(e), [])
  }

  // ----- the round trip -----

  predicate PlainSuffixes(suffixes: seq<Suffix>) {
    forall i :: 0 <= i < |suffixes| ==> !suffixes[i].DotParenSuffix? && DerivableSuffix(suffixes[i])
  }

  lemma WrappedMeans(t: Tree, level: nat, e: Expression)
    requires Derivable(t) && Meaning(t) == e && level <= 13 && (Level(t) < level ==> !IsPlaceDereference(e))
    ensures Derivable(Wrapped(t, level)) && Level(Wrapped(t, level)) >= level && Meaning(Wrapped(t, level)) == e
  {
  }

  lemma {:induction false} TreeMeans(e: Expression)
    requires Canonical(e)
    ensures Derivable(TreeOf(e)) && Meaning(TreeOf(e)) == e
    decreases e, 1
  {
    hide Precedence;
    match e
    case Literal(_) =>
    case Atom(p) =>
      PlaceMeans(p, []);
      ExtendedByNothing(p);
    case Call(f, arguments) =>
      CalleeMeans(f, []);
      ExtendedByNothing(f);
      TreesMean(arguments, 0);
    case Unary(_, operand) =>
      TreeMeans(operand);
      NotBelow(operand, 11);
      WrappedMeans(TreeOf(operand), 11, operand);
    case Binary(op, left, right) =>
      TreeMeans(left);
      TreeMeans(right);
      PrecedenceBound(op);
      NotBelow(left, Precedence(op));
      NotBelow(right, Precedence(op) + 1);
      WrappedMeans(TreeOf(left), Precedence(op), left);
      WrappedMeans(TreeOf(right), Precedence(op) + 1, right);
    case Conversion(operand, _) =>
      TreeMeans(operand);
      WrappedMeans(TreeOf(operand), 12, operand);
  }

  lemma PrecedenceBound(op: BinaryOp)
    ensures Precedence(op) <= 10
  {
  }

  /** A bare dereference of a place never needs parentheses as an operand. */
  lemma NotBelow(e: Expression, level: nat)
    requires level <= 11
    ensures Level(TreeOf(e)) < level ==> !IsPlaceDereference(e)
  {
  }

  lemma ExtendedByNothing(p: Place)
    ensures Extended(p, [], 0) == p
  {
  }

  lemma {:induction false} PlaceMeans(p: Place, suffixes: seq<Suffix>)
    requires CanonicalPlace(p) && PlainSuffixes(suffixes)
    ensures Derivable(PlaceTreeOf(p, suffixes)) && Level(PlaceTreeOf(p, suffixes)) == 13
    ensures Meaning(PlaceTreeOf(p, suffixes)) == Atom(Extended(p, suffixes, 0))
    decreases p
  {
    match p
    case Base(_) =>
    case Field(parent, field) =>
      SuffixesCons(FieldSuffix(field), suffixes, [], parent);
      PlaceMeans(parent, [FieldSuffix(field)] + suffixes);
    case Index(parent, index) =>
      TreeMeans(index);
      SuffixesCons(BracketSuffix(TreeOf(index)), suffixes, [], parent);
      PlaceMeans(parent, [BracketSuffix(TreeOf(index))] + suffixes);
    case Pointee(parent) =>
      PlaceMeans(parent, []);
      ExtendedByNothing(parent);
  }

  lemma {:induction false} CalleeMeans(p: Place, suffixes: seq<Suffix>)
    requires CanonicalPlace(p) && StartsAtName(p) && PlainSuffixes(suffixes)
    ensures PlainSuffixes(SuffixesOf(p, suffixes))
    ensures Extended(Base(RootName(p)), SuffixesOf(p, suffixes), 0) == Extended(p, suffixes, 0)
    decreases p
  {
    match p
    case Base(_) =>
    case Field(parent, field) =>
      SuffixesCons(FieldSuffix(field), suffixes, [], parent);
      CalleeMeans(parent, [FieldSuffix(field)] + suffixes);
    case Index(parent, index) =>
      TreeMeans(index);
      SuffixesCons(BracketSuffix(TreeOf(index)), suffixes, [], parent);
      CalleeMeans(parent, [BracketSuffix(TreeOf(index))] + suffixes);
    case _ =>
  }

  lemma {:induction false} TreesMean(es: seq<Expression>, i: nat)
    requires i <= |es| && forall k :: i <= k < |es| ==> Canonical(es[k])
    ensures forall k :: 0 <= k < |TreesOf(es, i)| ==> Derivable(TreesOf(es, i)[k])
    ensures Meanings(TreesOf(es, i), 0) == es[i..]
    decreases es, |es| - i
  {
    if i < |es| {
      TreeMeans(es[i]);
      TreesMean(es, i + 1);
      ShiftedArguments(TreeOf(es[i]), TreesOf(es, i + 1), 0, []);
    }
  }

  /** Parsing what was printed gives the expression back and stops exactly at its end. */
  lemma ParseInvertsPrint(e: Expression, rest: seq<Token>)
    requires Canonical(e) && Ends(rest, 1)
    ensures ParseMin(Spelled(TreeOf(e), rest), 1) == Parsed(e, rest)
    ensures ParseMin(Print(e), 1) == Parsed(e, [])
  {
    hide TreeOf, Canonical, ParseMin;
    TreeMeans(e);
    LevelAtLeast(TreeOf(e));
    DerivablesParse(TreeOf(e), rest, 1);
    DerivablesParse(TreeOf(e), [], 1);
  }

  /** A printed place is also read back by the parser of assignable places. */
  lemma {:induction false} LvalueInvertsPrint(p: Place, suffixes: seq<Suffix>, rest: seq<Token>)
    requires CanonicalPlace(p) && PlainSuffixes(suffixes) && Head(rest) != Sign(DotSign) && Head(rest) != Sign(LeftBracket)
    ensures ParseLvalue(Spelled(PlaceTreeOf(p, suffixes), rest)) == Parsed(Extended(p, suffixes, 0), rest)
    decreases p
  {
    hide ParseSuffixes;
    match p
    case Base(name) =>
      ConsIs(Identifier(name), SpelledSuffixes(suffixes, 0, rest));
      SuffixesParse(p, suffixes, 0, rest, true);
    case Field(parent, field) =>
      SuffixesCons(FieldSuffix(field), suffixes, rest, parent);
      LvalueInvertsPrint(parent, [FieldSuffix(field)] + suffixes, rest);
    case Index(parent, index) =>
      TreeMeans(index);
      SuffixesCons(BracketSuffix(TreeOf(index)), suffixes, rest, parent);
      LvalueInvertsPrint(parent, [BracketSuffix(TreeOf(index))] + suffixes, rest);
    case Pointee(parent) =>
      var after := SpelledSuffixes(suffixes, 0, rest);
      var inner := Spelled(PlaceTreeOf(parent, []), [Sign(RightParen)] + after);
      ConsIs(Sign(RightParen), after);
      LvalueInvertsPrint(parent, [], [Sign(RightParen)] + after);
      ExtendedByNothing(parent);
      SuffixesParse(Pointee(parent), suffixes, 0, rest, true);
      PointeeParses(inner, parent, after);
  }

  lemma PointeeParses(inner: seq<Token>, p: Place, after: seq<Token>)
    requires ParseLvalue(inner) == Parsed(p, [Sign(RightParen)] + after)
    ensures ParseLvalue([Sign(LeftParen)] + ([Sign(StarSign)] + inner)) == ParseSuffixes(Pointee(p), after, true)
  {
    hide ParseSuffixes;
    var ts := [Sign(LeftParen)] + ([Sign(StarSign)] + inner);
    ConsIs(Sign(LeftParen), [Sign(StarSign)] + inner);
    ConsIs(Sign(StarSign), inner);
    ConsIs(Sign(RightParen), after);
    assert ts[2..] == ts[1..][1..];
  }

  // ----- parsed expressions are canonical -----

  lemma {:induction false} DerivedCanonical(t: Tree)
    requires Derivable(t)
    ensures Canonical(Meaning(t))
    ensures Level(t) >= 12 ==> !IsPlaceDereference(Meaning(t))
    decreases t, 1
  {
    hide Precedence;
    match t
    case LiteralTree(_) =>
    case PlaceTree(name, suffixes) => ExtendedCanonical(Base(name), suffixes, 0);
    case CallTree(name, suffixes, arguments) =>
      ExtendedCanonical(Base(name), suffixes, 0);
      ArgumentsCanonical(arguments, 0);
    case ParenTree(inner, suffixes) =>
      DerivedCanonical(inner);
      if IsPlaceDereference(Meaning(inner)) {
        ExtendedCanonical(Pointee(Meaning(inner).operand.place), suffixes, 0);
      }
    case ConvertTree(operand, _) => DerivedCanonical(operand);
    case UnaryTree(_, operand) => DerivedCanonical(operand);
    case BinaryTree(_, left, right) =>
      DerivedCanonical(left);
      DerivedCanonical(right);
  }

  lemma {:induction false} ExtendedCanonical(p: Place, suffixes: seq<Suffix>, i: nat)
    requires CanonicalPlace(p) && forall k :: i <= k < |suffixes| ==> DerivableSuffix(suffixes[k])
    ensures CanonicalPlace(Extended(p, suffixes, i))
    ensures StartsAtName(p) ==> StartsAtName(Extended(p, suffixes, i))
    decreases suffixes, |suffixes| - i
  {
    if i < |suffixes| {
      ExtensionCanonical(p, suffixes[i]);
      ExtendedCanonical(ExtendedBy(p, suffixes[i]), suffixes, i + 1);
    }
  }

  lemma {:induction false} ExtensionCanonical(p: Place, s: Suffix)
    requires CanonicalPlace(p) && DerivableSuffix(s)
    ensures CanonicalPlace(ExtendedBy(p, s)) && (StartsAtName(p) ==> StartsAtName(ExtendedBy(p, s)))
    decreases s
  {
    match s
    case FieldSuffix(_) =>
    case BracketSuffix(index) => DerivedCanonical(index);
    case DotParenSuffix(index) => DerivedCanonical(index);
  }

  lemma {:induction false} ArgumentsCanonical(ts: seq<Tree>, i: nat)
    requires i <= |ts| && forall k :: i <= k < |ts| ==> Derivable(ts[k])
    ensures forall k :: 0 <= k < |Meanings(ts, i)| ==> Canonical(Meanings(ts, i)[k])
    decreases ts, |ts| - i
  {
    if i < |ts| {
      DerivedCanonical(ts[i]);
      ArgumentsCanonical(ts, i + 1);
    }
  }

  /** The canonical expressions are exactly the results of parsing. */
  lemma CanonicalIsParsed(e: Expression)
    ensures Canonical(e) <==> exists ts :: ParseMin(ts, 1) == Parsed(e, [])
  {
    hide ParseMin, TreeOf, Canonical;
    if Canonical(e) {
      ParseInvertsPrint(e, []);
    }
    if ts :| ParseMin(ts, 1) == Parsed(e, []) {
      var t := MinDerives(ts, 1);
      DerivedCanonical(t);
    }
  }

  // ----- no spelling has fewer parentheses -----

  /** How many parenthesised expressions a tree holds. */
  function Parens(t: Tree): nat
    decreases t
  {
    match t
    case LiteralTree(_) => 0
    case PlaceTree(_, suffixes) => SuffixParens(suffixes, 0)
    case CallTree(_, suffixes, arguments) => SuffixParens(suffixes, 0) + AllParens(arguments, 0)
    case ParenTree(inner, suffixes) => 1 + Parens(inner) + SuffixParens(suffixes, 0)
    case ConvertTree(operand, _) => Parens(operand)
    case UnaryTree(_, operand) => Parens(operand)
    case BinaryTree(_, left, right) => Parens(left) + Parens(right)
  }

  function SuffixParens(suffixes: seq<Suffix>, i: nat): nat
    decreases suffixes, |suffixes| - i
  {
    if i >= |suffixes| then 0 else OneSuffix(suffixes[i]) + SuffixParens(suffixes, i + 1)
  }

  function OneSuffix(s: Suffix): nat
    decreases s
  {
    match s
    case FieldSuffix(_) => 0
    case BracketSuffix(index) => Parens(index)
    case DotParenSuffix(index) => Parens(index)
  }

  function AllParens(ts: seq<Tree>, i: nat): nat
    decreases ts, |ts| - i
  {
    if i >= |ts| then 0 else Parens(ts[i]) + AllParens(ts, i + 1)
  }

  /** The parentheses that printing a place needs. */
  function PlaceParens(p: Place): nat
    decreases p
  {
    match p
    case Base(_) => 0
    case Field(parent, _) => PlaceParens(parent)
    case Index(parent, index) => PlaceParens(parent) + Parens(TreeOf(index))
    case Pointee(parent) => 1 + PlaceParens(parent)
  }

  lemma {:induction false} SuffixParensShift(s: Suffix, suffixes: seq<Suffix>, i: nat)
    requires i <= |suffixes|
    ensures SuffixParens([s] + suffixes, i + 1) == SuffixParens(suffixes, i)
    decreases |suffixes| - i
  {
    if i < |suffixes| {
      SuffixParensShift(s, suffixes, i + 1);
    }
  }

  lemma {:induction false} PlaceTreeParens(p: Place, suffixes: seq<Suffix>)
    ensures Parens(PlaceTreeOf(p, suffixes)) == PlaceParens(p) + SuffixParens(suffixes, 0)
    decreases p
  {
    match p
    case Base(_) =>
    case Field(parent, field) =>
      PlaceTreeParens(parent, [FieldSuffix(field)] + suffixes);
      SuffixParensShift(FieldSuffix(field), suffixes, 0);
    case Index(parent, index) =>
      PlaceTreeParens(parent, [BracketSuffix(TreeOf(index))] + suffixes);
      SuffixParensShift(BracketSuffix(TreeOf(index)), suffixes, 0);
    case Pointee(parent) => PlaceTreeParens(parent, []);
  }

  lemma {:induction false} CalleeParens(p: Place, suffixes: seq<Suffix>)
    requires StartsAtName(p)
    ensures SuffixParens(SuffixesOf(p, suffixes), 0) == PlaceParens(p) + SuffixParens(suffixes, 0)
    decreases p
  {
    match p
    case Base(_) =>
    case Field(parent, field) =>
      CalleeParens(parent, [FieldSuffix(field)] + suffixes);
      SuffixParensShift(FieldSuffix(field), suffixes, 0);
    case Index(parent, index) =>
      CalleeParens(parent, [BracketSuffix(TreeOf(index))] + suffixes);
      SuffixParensShift(BracketSuffix(TreeOf(index)), suffixes, 0);
    case _ =>
  }

  lemma WrappedParens(t: Tree, level: nat)
    ensures Parens(Wrapped(t, level)) == Parens(t) + if Level(t) < level then 1 else 0
  {
  }

  /** Standing above the level of its own printed form costs a derivation a parenthesis. */
  lemma {:induction false} FewestParens(t: Tree)
    requires Derivable(t)
    ensures Parens(t) >= Parens(TreeOf(Meaning(t))) + if Level(TreeOf(Meaning(t))) < Level(t) then 1 else 0
    decreases t, 1
  {
    hide Precedence, Canonical;
    match t
    case LiteralTree(_) =>
    case PlaceTree(name, suffixes) =>
      ExtendedParens(Base(name), suffixes, 0);
      PlaceTreeParens(Extended(Base(name), suffixes, 0), []);
      PlaceTreeLevel(Extended(Base(name), suffixes, 0), []);
    case CallTree(name, suffixes, arguments) =>
      ExtendedParens(Base(name), suffixes, 0);
      ExtendedCanonical(Base(name), suffixes, 0);
      CalleeParens(Extended(Base(name), suffixes, 0), []);
      ArgumentParens(arguments, 0);
    case ParenTree(_, _) => FewestAround(t);
    case ConvertTree(operand, _) =>
      FewestParens(operand);
      WrappedParens(TreeOf(Meaning(operand)), 12);
    case UnaryTree(_, operand) =>
      FewestParens(operand);
      WrappedParens(TreeOf(Meaning(operand)), 11);
    case BinaryTree(op, left, right) =>
      FewestParens(left);
      FewestParens(right);
      WrappedParens(TreeOf(Meaning(left)), Precedence(op));
      WrappedParens(TreeOf(Meaning(right)), Precedence(op) + 1);
  }

  lemma {:induction false} FewestAround(t: Tree)
    requires t.ParenTree? && Derivable(t)
    ensures Parens(t) >= Parens(TreeOf(Meaning(t))) + if Level(TreeOf(Meaning(t))) < Level(t) then 1 else 0
    decreases t, 0
  {
    hide Precedence, Canonical;
    var inner, suffixes := t.inner, t.suffixes;
    FewestParens(inner);
    if IsPlaceDereference(Meaning(inner)) {
      var p := Meaning(inner).operand.place;
      ExtendedParens(Pointee(p), suffixes, 0);
      PlaceTreeParens(Extended(Pointee(p), suffixes, 0), []);
      PlaceTreeLevel(Extended(Pointee(p), suffixes, 0), []);
      PlaceTreeParens(p, []);
      PlaceTreeLevel(p, []);
    }
  }

  lemma {:induction false} PlaceTreeLevel(p: Place, suffixes: seq<Suffix>)
    ensures Level(PlaceTreeOf(p, suffixes)) == 13
    decreases p
  {
    match p
    case Base(_) =>
    case Field(parent, field) => PlaceTreeLevel(parent, [FieldSuffix(field)] + suffixes);
    case Index(parent, index) => PlaceTreeLevel(parent, [BracketSuffix(TreeOf(index))] + suffixes);
    case Pointee(_) =>
  }

  lemma {:induction false} ExtendedParens(p: Place, suffixes: seq<Suffix>, i: nat)
    requires forall k :: i <= k < |suffixes| ==> DerivableSuffix(suffixes[k])
    ensures PlaceParens(Extended(p, suffixes, i)) <= PlaceParens(p) + SuffixParens(suffixes, i)
    decreases suffixes, |suffixes| - i
  {
    if i < |suffixes| {
      ExtensionParens(p, suffixes[i]);
      ExtendedParens(ExtendedBy(p, suffixes[i]), suffixes, i + 1);
    }
  }

  lemma {:induction false} ExtensionParens(p: Place, s: Suffix)
    requires DerivableSuffix(s)
    ensures PlaceParens(ExtendedBy(p, s)) <= PlaceParens(p) + OneSuffix(s)
    decreases s
  {
    match s
    case FieldSuffix(_) =>
    case BracketSuffix(index) => FewestParens(index);
    case DotParenSuffix(index) => FewestParens(index);
  }

  lemma {:induction false} ArgumentParens(ts: seq<Tree>, i: nat)
    requires i <= |ts| && forall k :: i <= k < |ts| ==> Derivable(ts[k])
    ensures AllParens(TreesOf(Meanings(ts, i), 0), 0) <= AllParens(ts, i)
    decreases ts, |ts| - i
  {
    if i < |ts| {
      FewestParens(ts[i]);
      ArgumentParens(ts, i + 1);
      var e, es := Meaning(ts[i]), Meanings(ts, i + 1);
      TreesOfCons(e, es, 0);
      AllParensShift(TreeOf(e), TreesOf(es, 0), 0);
    }
  }

  lemma {:induction false} TreesOfCons(e: Expression, es: seq<Expression>, i: nat)
    requires i <= |es|
    ensures TreesOf([e] + es, i + 1) == TreesOf(es, i)
    decreases |es| - i
  {
    if i < |es| {
      TreesOfCons(e, es, i + 1);
    }
  }

  lemma {:induction false} AllParensShift(t: Tree, ts: seq<Tree>, i: nat)
    requires i <= |ts|
    ensures AllParens([t] + ts, i + 1) == AllParens(ts, i)
    decreases |ts| - i
  {
    if i < |ts| {
      AllParensShift(t, ts, i + 1);
    }
  }

  /** What is printed has no more parentheses than any other spelling of the expression. */
  lemma PrintsFewest(e: Expression, t: Tree)
    requires Derivable(t) && Meaning(t) == e
    ensures Parens(TreeOf(e)) <= Parens(t)
  {
    FewestParens(t);
  }
}
