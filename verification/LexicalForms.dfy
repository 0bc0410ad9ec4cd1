/** What the lexer reads at an offset of the source: trivia, literals, identifiers, operators, and the token itself. */
module LexicalForms {
  import opened IdentifierIdentity
  import opened IntegerLiterals
  import opened Options
  import opened Utf8

  const QUOTE: Byte := 0x22
  const BACKSLASH: Byte := 0x5C
  const NEWLINE: Byte := 0x0A
  const GUILLEMET_OPEN: seq<Byte> := [0xC2, 0xAB]
  const GUILLEMET_CLOSE: seq<Byte> := [0xC2, 0xBB]

  datatype LexicalError = SyntaxError | InvalidUtf8

  /** A value read, and the offset after it. */
  datatype Scan<+T> = Good(value: T, end: nat) | Bad(error: LexicalError)

  /** The byte `ahead` of an offset; zero past the end. */
  function Peek(s: seq<Byte>, o: nat, ahead: nat): Byte {
    if o + ahead < |s| then s[o + ahead] else 0
  }

  predicate Matches(s: seq<Byte>, o: nat, text: seq<Byte>) {
    o + |text| <= |s| && s[o..o + |text|] == text
  }

  // ----- trivia -----

  const COMMENT: seq<Byte> := [0x2F, 0x2F]

  predicate IsSpace(b: Byte) {
    b == 0x20 || b == 0x09 || b == 0x0D || b == 0x0A
  }

  function SpaceEnd(s: seq<Byte>, o: nat): (e: nat)
    requires o <= |s|
    ensures o <= e <= |s|
    ensures forall k :: o <= k < e ==> IsSpace(s[k])
    ensures e < |s| ==> !IsSpace(s[e])
    decreases |s| - o
  {
    if o < |s| && IsSpace(s[o]) then SpaceEnd(s, o + 1) else o
  }

  function LineEnd(s: seq<Byte>, o: nat): (e: nat)
    requires o <= |s|
    ensures o <= e <= |s|
    ensures forall k :: o <= k < e ==> s[k] != NEWLINE
    ensures e < |s| ==> s[e] == NEWLINE
    decreases |s| - o
  {
    if o < |s| && s[o] != NEWLINE then LineEnd(s, o + 1) else o
  }

  /** Where the token after white space and comments starts. */
  function TriviaEnd(s: seq<Byte>, o: nat): (e: nat)
    requires o <= |s|
    ensures o <= e <= |s|
    decreases |s| - o
  {
    var e := SpaceEnd(s, o);
    if Matches(s, e, COMMENT) then
      assert s[e] == COMMENT[0];
      TriviaEnd(s, LineEnd(s, e))
    else e
  }

  // ----- numbers -----

  /** The end of the longest run of digits and separators. */
  function RunEnd(s: seq<Byte>, o: nat, base: Base): (e: nat)
    requires o <= |s|
    ensures o <= e <= |s|
    ensures forall k :: o <= k < e ==> IsDigit(s[k], base) || s[k] == UNDERSCORE
    ensures e < |s| ==> !IsDigit(s[e], base) && s[e] != UNDERSCORE
    decreases |s| - o
  {
    if o < |s| && (IsDigit(s[o], base) || s[o] == UNDERSCORE) then RunEnd(s, o + 1, base) else o
  }

  /** The end of a fraction at `o`, or `o` when there is none. */
  function FractionEnd(s: seq<Byte>, o: nat): (e: nat)
    requires o <= |s|
    ensures o <= e <= |s|
  {
    if o + 2 <= |s| && s[o] == 0x2E && IsDecimalDigit(s[o + 1]) then RunEnd(s, o + 1, 10) else o
  }

  /** The end of an exponent at `o`, or `o` when no digit follows the letter and its sign. */
  function ExponentEnd(s: seq<Byte>, o: nat): (e: nat)
    requires o <= |s|
    ensures o <= e <= |s|
  {
    if o < |s| && (s[o] == 0x65 || s[o] == 0x45) then
      var p := if Peek(s, o, 1) == 0x2B || Peek(s, o, 1) == 0x2D then o + 2 else o + 1;
      if IsDecimalDigit(Peek(s, p, 0)) then RunEnd(s, p, 10) else o
    else o
  }

  /** The spelling of the number at `o`: where it ends and whether it is a float. */
  function NumberEnd(s: seq<Byte>, o: nat): (r: (nat, bool))
    requires o < |s| && IsDecimalDigit(s[o])
    ensures o < r.0 <= |s|
  {
    if Matches(s, o, [0x30, 0x62]) then (RunEnd(s, o + 2, 2), false)
    else if Matches(s, o, [0x30, 0x78]) then (RunEnd(s, o + 2, 16), false)
    else
      var whole := RunEnd(s, o, 10);
      var fraction := FractionEnd(s, whole);
      var exponent := ExponentEnd(s, fraction);
      (exponent, exponent > whole)
  }

  /** A digit run after an underscore: its end and value, refused above the signed 64-bit maximum. */
  function DigitsEnd(s: seq<Byte>, o: nat): (e: nat)
    requires o <= |s|
    ensures o <= e <= |s|
    ensures forall k :: o <= k < e ==> IsDecimalDigit(s[k])
    ensures e < |s| ==> !IsDecimalDigit(s[e])
    decreases |s| - o
  {
    if o < |s| && IsDecimalDigit(s[o]) then DigitsEnd(s, o + 1) else o
  }

  // ----- escapes and strings -----

  /** A fixed number of hexadecimal digits. */
  function HexEscape(s: seq<Byte>, o: nat, digits: nat): (r: Option<nat>)
    ensures r.Some? ==> o + digits <= |s|
  {
    if o + digits <= |s| then Positional(s[o..o + digits], 16) else None
  }

  /** The character an escape stands for, read after its backslash. */
  function EscapeIn(s: seq<Byte>, o: nat): (r: Scan<nat>)
    requires o <= |s|
    ensures r.Good? ==> o < r.end <= |s| && IsScalar(r.value)
  {
    if o == |s| then Bad(SyntaxError)
    else if s[o] == 0x6E then Good(0x0A, o + 1)
    else if s[o] == 0x72 then Good(0x0D, o + 1)
    else if s[o] == 0x74 then Good(0x09, o + 1)
    else if s[o] == BACKSLASH then Good(0x5C, o + 1)
    else if s[o] == QUOTE then Good(0x22, o + 1)
    else
      var digits := if s[o] == 0x78 then 2 else if s[o] == 0x75 then 4 else if s[o] == 0x55 then 8 else 0;
      var c := if digits == 0 then None else HexEscape(s, o + 1, digits);
      if c.Some? && IsScalar(c.value) then Good(c.value, o + 1 + digits) else Bad(SyntaxError)
  }

  /** One raw character: any ASCII byte, or a well-formed multi-byte character. */
  function RawIn(s: seq<Byte>, o: nat): (r: Scan<nat>)
    requires o < |s|
    ensures r.Good? ==> o < r.end <= |s| && IsScalar(r.value) && Encode(r.value) == s[o..r.end]
  {
    if s[o] < 0x80 then
      assert s[o..o + 1] == [s[o]];
      Good(s[o], o + 1)
    else
      var d := Decode(s[o..]);
      if d.None? then Bad(InvalidUtf8)
      else
        assert s[o..][..d.value.width] == s[o..o + d.value.width];
        Good(d.value.scalar, o + d.value.width)
  }

  /** Puts text in front of what the rest of a string holds. */
  function Ahead(text: seq<Byte>, rest: Scan<seq<Byte>>): Scan<seq<Byte>> {
    match rest
    case Good(more, end) => Good(text + more, end)
    case Bad(e) => Bad(e)
  }

  /** The rest of a guillemet string, `depth` marks deep. */
  function GuillemetIn(s: seq<Byte>, o: nat, depth: nat): (r: Scan<seq<Byte>>)
    requires o <= |s| && depth >= 1
    ensures r.Good? ==> o < r.end <= |s|
    decreases |s| - o
  {
    if o == |s| then Bad(SyntaxError)
    else if Matches(s, o, GUILLEMET_OPEN) then
      if depth >= 256 then Bad(SyntaxError) else Ahead(GUILLEMET_OPEN, GuillemetIn(s, o + 2, depth + 1))
    else if Matches(s, o, GUILLEMET_CLOSE) then
      if depth == 1 then Good([], o + 2) else Ahead(GUILLEMET_CLOSE, GuillemetIn(s, o + 2, depth - 1))
    else
      match RawIn(s, o)
      case Bad(e) => Bad(e)
      case Good(c, next) => Ahead(Encode(c), GuillemetIn(s, next, depth))
  }

  /** The rest of a quoted string. */
  function QuotedIn(s: seq<Byte>, o: nat): (r: Scan<seq<Byte>>)
    requires o <= |s|
    ensures r.Good? ==> o < r.end <= |s|
    decreases |s| - o
  {
    if o == |s| then Bad(SyntaxError)
    else if s[o] == QUOTE then Good([], o + 1)
    else if s[o] == NEWLINE then Bad(SyntaxError)
    else
      match if s[o] == BACKSLASH then EscapeIn(s, o + 1) else RawIn(s, o)
      case Bad(e) => Bad(e)
      case Good(c, next) => Ahead(Encode(c), QuotedIn(s, next))
  }

  /** A character literal after its opening quote. */
  function CharacterIn(s: seq<Byte>, o: nat): (r: Scan<nat>)
    requires o <= |s|
    ensures r.Good? ==> o < r.end <= |s| && IsScalar(r.value)
  {
    if o == |s| then Bad(SyntaxError)
    else
      var c := if s[o] == BACKSLASH then CharacterEscapeIn(s, o + 1) else DecodeIn(s, o);
      match c
      case Bad(e) => Bad(e)
      case Good(scalar, next) =>
        if next < |s| && s[next] == 0x27 then Good(scalar, next + 1) else Bad(SyntaxError)
  }

  /** Character escapes are string escapes with the other quote. */
  function CharacterEscapeIn(s: seq<Byte>, o: nat): (r: Scan<nat>)
    requires o <= |s|
    ensures r.Good? ==> o < r.end <= |s| && IsScalar(r.value)
  {
    if o < |s| && s[o] == QUOTE then Bad(SyntaxError)
    else if o < |s| && s[o] == 0x27 then Good(0x27, o + 1)
    else EscapeIn(s, o)
  }

  function DecodeIn(s: seq<Byte>, o: nat): (r: Scan<nat>)
    requires o < |s|
    ensures r.Good? ==> o < r.end <= |s| && IsScalar(r.value)
  {
    match Decode(s[o..])
    case None => Bad(InvalidUtf8)
    case Some(d) => Good(d.scalar, o + d.width)
  }

  // ----- identifiers -----

  predicate IsIdStart(c: nat) {
    || 0x0041 <= c <= 0x005A
    || 0x0061 <= c <= 0x007A
    || 0x0621 <= c <= 0x063A
    || 0x0641 <= c <= 0x064A
    || 0x066E <= c <= 0x066F
    || 0x0671 <= c <= 0x06D3
    || 0x06E5 <= c <= 0x06E6
    || 0x06EE <= c <= 0x06EF
    || 0x06FA <= c <= 0x06FC
    || 0x0750 <= c <= 0x077F
    || 0x08A0 <= c <= 0x08C9
    || c == 0x005F
    || c == 0x06D5
    || c == 0x06FF
    || Ignored(c)
  }

  predicate IsIdRest(c: nat) {
    || IsIdStart(c)
    || 0x0030 <= c <= 0x0039
    || 0x064B <= c <= 0x065F
    || 0x0660 <= c <= 0x0669
    || 0x06D6 <= c <= 0x06DC
    || 0x06DF <= c <= 0x06E4
    || 0x06E7 <= c <= 0x06E8
    || 0x06EA <= c <= 0x06ED
    || 0x06F0 <= c <= 0x06F9
    || 0x08D3 <= c <= 0x08FF
    || c == 0x0670
  }

  /** The end of the identifier whose rest starts at `o`; nothing when a byte that is not UTF-8 stops it. */
  function IdentifierEnd(s: seq<Byte>, o: nat): (r: Option<nat>)
    requires o <= |s|
    ensures r.Some? ==> o <= r.value <= |s|
    decreases |s| - o
  {
    if o == |s| then Some(o)
    else
      match Decode(s[o..])
      case None => None
      case Some(d) => if IsIdRest(d.scalar) then IdentifierEnd(s, o + d.width) else Some(o)
  }

  /** A decoded character in front of decodable text gives decodable text. */
  lemma DecodedInFront(s: seq<Byte>, o: nat, e: nat)
    requires o < e <= |s| && Decode(s[o..]).Some? && o + Decode(s[o..]).value.width <= e
    ensures DecodeAll(s[o + Decode(s[o..]).value.width..e]).Some? ==> DecodeAll(s[o..e]).Some?
  {
    var d := Decode(s[o..]).value;
    hide Encode, Decode;
    var text := s[o..e];
    assert text[..d.width] == s[o..][..d.width];
    assert text == text[..d.width] + text[d.width..];
    DecodeInvertsEncode(d.scalar, text[d.width..]);
    assert text[d.width..] == s[o + d.width..e];
  }

  lemma EmptyIsText()
    ensures DecodeAll([]).Some?
  {
  }

  lemma StartIsRest(c: nat)
    ensures IsIdStart(c) ==> IsIdRest(c)
  {
  }

  /** An identifier's spelling is UTF-8. */
  lemma {:induction false} IdentifierIsText(s: seq<Byte>, o: nat)
    requires o <= |s| && IdentifierEnd(s, o).Some?
    ensures DecodeAll(s[o..IdentifierEnd(s, o).value]).Some?
    decreases |s| - o
  {
    hide Decode, IsIdRest, DecodeAll;
    var e := IdentifierEnd(s, o).value;
    EmptyIsText();
    if o < |s| && IsIdRest(Decode(s[o..]).value.scalar) {
      IdentifierIsText(s, o + Decode(s[o..]).value.width);
      DecodedInFront(s, o, e);
    } else {
      assert s[o..e] == [];
    }
  }

  /** The word at `start` has an identity. */
  lemma WordHasIdentity(s: seq<Byte>, start: nat)
    requires start < |s| && Decode(s[start..]).Some?
    ensures
      var end := IdentifierEnd(s, start + Decode(s[start..]).value.width);
      end.Some? ==> Identity(s[start..end.value]).Some?
  {
    hide Decode, Semantic, DecodeAll, IdentifierEnd;
    var o := start + Decode(s[start..]).value.width;
    if IdentifierEnd(s, o).Some? {
      IdentifierIsText(s, o);
      DecodedInFront(s, start, IdentifierEnd(s, o).value);
    }
  }

  /** What a reserved word stands for. */
  datatype Meaning = Reserved(kind: nat) | Truth(value: bool)

  datatype Keyword = Keyword(spelling: seq<Byte>, meaning: Meaning)

  /** The first reserved word with the identity of a text. */
  function Lookup(words: seq<Keyword>, text: seq<Byte>): (r: Option<Meaning>)
    ensures r.None? <==> forall i :: 0 <= i < |words| ==>
      !(Identity(text).Some? && Identity(words[i].spelling) == Identity(text))
  {
    if words == [] then None
    else if Identity(text).Some? && Identity(words[0].spelling) == Identity(text) then Some(words[0].meaning)
    else Lookup(words[1..], text)
  }

  // ----- operators -----

  const OPERATORS: nat := 35

  /** The operator spellings, in table order: longest first. */
  function Spelling(operator: nat): (r: seq<Byte>)
    requires operator < OPERATORS
    ensures |r| == if operator == 0 then 3 else if operator <= 10 then 2 else 1
  {
    match operator
    case 0 => [0x3E, 0x3E, 0x3E]    // >>>
    case 1 => [0x3C, 0x3D]          // <=
    case 2 => [0x3D, 0x3D]          // ==
    case 3 => [0x21, 0x3D]          // !=
    case 4 => [0x3E, 0x3D]          // >=
    case 5 => [0x26, 0x26]          // &&
    case 6 => [0x7C, 0x7C]          // ||
    case 7 => [0x3C, 0x3C]          // <<
    case 8 => [0x3E, 0x3E]          // >>
    case 9 => [0x3A, 0x3D]          // :=
    case 10 => [0x2D, 0x3E]         // ->
    case 11 => [0x40]               // @
    case 12 => [0x2B]               // +
    case 13 => [0x2D]               // -
    case 14 => [0x2A]               // *
    case 15 => [0x2F]               // /
    case 16 => [0x25]               // %
    case 17 => [0x3D]               // =
    case 18 => [0x3C]               // <
    case 19 => [0x3E]               // >
    case 20 => [0x21]               // !
    case 21 => [0x26]               // &
    case 22 => [0x7C]               // |
    case 23 => [0x7E]               // ~
    case 24 => [0x7B]               // {
    case 25 => [0x7D]               // }
    case 26 => [0x5E]               // ^
    case 27 => [0x2E]               // .
    case 28 => [0x2C]               // ,
    case 29 => [0x3B]               // ;
    case 30 => [0x3A]               // :
    case 31 => [0x28]               // (
    case 32 => [0x29]               // )
    case 33 => [0x5B]               // [
    case _ => [0x5D]                // ]
  }

  /** The first operator of the table, from `from` on, that the source shows at `o`. */
  function FirstOperator(s: seq<Byte>, o: nat, from: nat): (r: Option<nat>)
    requires from <= OPERATORS
    ensures r.Some? ==> from <= r.value < OPERATORS && Matches(s, o, Spelling(r.value))
    ensures forall k :: from <= k < (if r.Some? then r.value else OPERATORS) ==> !Matches(s, o, Spelling(k))
    decreases OPERATORS - from
  {
    if from == OPERATORS then None
    else if Matches(s, o, Spelling(from)) then Some(from)
    else FirstOperator(s, o, from + 1)
  }

  /** Table order is longest first, so the operator found is the longest one possible. */
  lemma MaximalMunch(s: seq<Byte>, o: nat, k: nat)
    requires k < OPERATORS && Matches(s, o, Spelling(k))
    ensures FirstOperator(s, o, 0).Some?
    ensures |Spelling(FirstOperator(s, o, 0).value)| >= |Spelling(k)|
  {
    hide Spelling;
    var first := FirstOperator(s, o, 0);
    assert first.Some? && first.value <= k;
  }

  // ----- tokens -----

  datatype Kind =
    | EndOfFile
    | Text(bytes: seq<Byte>)
    | Character(scalar: nat)
    | Underscore
    | Index(value: nat)
    | Float
    | Number(integer: Integer)
    | Identifier
    | Word(kind: nat)
    | Boolean(truth: bool)
    | Operator(index: nat)

  /** A token and the stretch of source it was read from. */
  datatype Token = Token(kind: Kind, start: nat, end: nat)

  function Mapped<T>(start: nat, scan: Scan<T>, f: T -> Kind): Scan<Token> {
    match scan
    case Bad(e) => Bad(e)
    case Good(v, end) => Good(Token(f(v), start, end), end)
  }

  function IndexIn(s: seq<Byte>, start: nat): (r: Scan<Token>)
    requires start + 1 < |s|
    ensures r.Good? ==> start < r.end <= |s| && r.value.start == start && r.value.end == r.end
  {
    var end := DigitsEnd(s, start + 1);
    var v := Positional(s[start + 1..end], 10);
    if v.Some? && v.value <= MAX_INT64 then Good(Token(Index(v.value), start, end), end) else Bad(SyntaxError)
  }

  function NumberIn(s: seq<Byte>, start: nat): (r: Scan<Token>)
    requires start < |s| && IsDecimalDigit(s[start])
    ensures r.Good? ==> start < r.end <= |s| && r.value.start == start && r.value.end == r.end
  {
    var (end, float) := NumberEnd(s, start);
    var spelling := s[start..end];
    if !SeparatorsLegal(spelling) then Bad(SyntaxError)
    else if float then Good(Token(Float, start, end), end)
    else
      match Denoted(spelling)
      case None => Bad(SyntaxError)
      case Some(n) => Good(Token(Number(Payload(n)), start, end), end)
  }

  function WordIn(words: seq<Keyword>, s: seq<Byte>, start: nat): (r: Scan<Token>)
    requires start < |s| && Decode(s[start..]).Some? && IsIdStart(Decode(s[start..]).value.scalar)
    ensures r.Good? ==> start < r.end <= |s| && r.value.start == start && r.value.end == r.end
  {
    var first := Decode(s[start..]).value;
    match IdentifierEnd(s, start + first.width)
    case None => Bad(InvalidUtf8)
    case Some(end) =>
      var text := s[start..end];
      if Identity(text).None? || Identity(text).value == [] then Bad(SyntaxError)
      else
        match Lookup(words, text)
        case None => Good(Token(Identifier, start, end), end)
        case Some(Truth(b)) => Good(Token(Boolean(b), start, end), end)
        case Some(Reserved(k)) => Good(Token(Word(k), start, end), end)
  }

  /** Whether an underscore starts a longer name. */
  predicate UnderscoreContinues(s: seq<Byte>, start: nat)
    requires start < |s|
  {
    var next := Decode(s[start + 1..]);
    next.Some? && IsIdRest(next.value.scalar)
  }

  /** The token at an offset whose first byte opens no literal, index or bare underscore. */
  function NameOrOperator(words: seq<Keyword>, s: seq<Byte>, start: nat): Scan<Token>
    requires start < |s|
  {
    var first := Decode(s[start..]);
    if first.Some? && IsIdStart(first.value.scalar) then WordIn(words, s, start)
    else
      match FirstOperator(s, start, 0)
      case Some(k) => Good(Token(Operator(k), start, start + |Spelling(k)|), start + |Spelling(k)|)
      case None => Bad(if first.None? then InvalidUtf8 else SyntaxError)
  }

  /** The token that starts exactly at an offset. */
  function TokenAt(words: seq<Keyword>, s: seq<Byte>, start: nat): Scan<Token>
    requires start <= |s|
  {
    if start == |s| then Good(Token(EndOfFile, start, start), start)
    else if Matches(s, start, GUILLEMET_OPEN) then
      Mapped(start, GuillemetIn(s, start + 2, 1), bytes => Text(bytes))
    else if s[start] == QUOTE then Mapped(start, QuotedIn(s, start + 1), bytes => Text(bytes))
    else if s[start] == 0x27 then Mapped(start, CharacterIn(s, start + 1), c => Character(c))
    else if s[start] == UNDERSCORE && start + 1 < |s| && IsDecimalDigit(s[start + 1]) then IndexIn(s, start)
    else if s[start] == UNDERSCORE && !UnderscoreContinues(s, start) then
      Good(Token(Underscore, start, start + 1), start + 1)
    else if IsDecimalDigit(s[start]) then NumberIn(s, start)
    else NameOrOperator(words, s, start)
  }

  /** A token starts where it is read, ends where reading ends, and is empty only at the end of the source. */
  ghost predicate Shaped(s: seq<Byte>, start: nat, r: Scan<Token>) {
    r.Good? ==>
      && r.value.start == start
      && r.value.end == r.end
      && (if r.value.kind.EndOfFile? then start == r.end == |s| else start < r.end <= |s|)
  }

  lemma LiteralsShaped(s: seq<Byte>, start: nat)
    requires start < |s|
    ensures Matches(s, start, GUILLEMET_OPEN) ==> Shaped(s, start, Mapped(start, GuillemetIn(s, start + 2, 1), bytes => Text(bytes)))
    ensures Shaped(s, start, Mapped(start, QuotedIn(s, start + 1), bytes => Text(bytes)))
    ensures Shaped(s, start, Mapped(start, CharacterIn(s, start + 1), c => Character(c)))
  {
    hide GuillemetIn, QuotedIn, CharacterIn;
  }

  lemma NumbersShaped(s: seq<Byte>, start: nat)
    requires start < |s|
    ensures start + 1 < |s| ==> Shaped(s, start, IndexIn(s, start))
    ensures IsDecimalDigit(s[start]) ==> Shaped(s, start, NumberIn(s, start))
  {
    hide DigitsEnd, NumberEnd, Positional, Denoted;
  }

  lemma NamesShaped(words: seq<Keyword>, s: seq<Byte>, start: nat)
    requires start < |s|
    ensures Shaped(s, start, NameOrOperator(words, s, start))
  {
    hide Decode, IsIdStart, IdentifierEnd, Identity, Lookup, Spelling, FirstOperator;
  }

  lemma TokenShaped(words: seq<Keyword>, s: seq<Byte>, start: nat)
    requires start <= |s|
    ensures Shaped(s, start, TokenAt(words, s, start))
  {
    hide GuillemetIn, QuotedIn, CharacterIn, IndexIn, NumberIn, NameOrOperator, UnderscoreContinues, Mapped;
    if start < |s| {
      LiteralsShaped(s, start);
      NumbersShaped(s, start);
      NamesShaped(words, s, start);
    }
  }

  /** The next token of the source from an offset. */
  function NextToken(words: seq<Keyword>, s: seq<Byte>, o: nat): (r: Scan<Token>)
    requires o <= |s|
    ensures Shaped(s, TriviaEnd(s, o), r)
  {
    TokenShaped(words, s, TriviaEnd(s, o));
    TokenAt(words, s, TriviaEnd(s, o))
  }
}
