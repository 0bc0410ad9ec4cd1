/** The lexer: a cursor over the source that counts lines and columns while it scans tokens. */
module LexerCursor {
  import opened IdentifierIdentity
  import opened IntegerLiterals
  import opened LexicalForms
  import opened Options
  import opened Utf8

  const WORD32: nat := 0x1_0000_0000

  /** A line and column, as 32-bit counters. */
  datatype Position = Position(offset: nat, line: nat, column: nat)

  function Lines(text: seq<Byte>): nat {
    if text == [] then 1
    else Lines(text[..|text| - 1]) + if text[|text| - 1] == NEWLINE then 1 else 0
  }

  /** Characters since the last newline: continuation bytes start no character. */
  function Columns(text: seq<Byte>): nat {
    if text == [] || text[|text| - 1] == NEWLINE then 0
    else Columns(text[..|text| - 1]) + if IsContinuation(text[|text| - 1]) then 0 else 1
  }

  /** The position a stretch of source ends at. */
  function PositionAt(s: seq<Byte>, o: nat): Position
    requires o <= |s|
  {
    Position(o, Lines(s[..o]) % WORD32, Columns(s[..o]) % WORD32)
  }

  lemma PositionStep(s: seq<Byte>, o: nat)
    requires o < |s|
    ensures Lines(s[..o + 1]) == Lines(s[..o]) + if s[o] == NEWLINE then 1 else 0
    ensures Columns(s[..o + 1]) ==
            if s[o] == NEWLINE then 0 else Columns(s[..o]) + if IsContinuation(s[o]) then 0 else 1
  {
    assert s[..o + 1][..o] == s[..o];
  }

  lemma CounterStep(n: nat, d: nat)
    ensures (n % WORD32 + d) % WORD32 == (n + d) % WORD32
  {
  }

  lemma AheadTwice(a: seq<Byte>, b: seq<Byte>, rest: Scan<seq<Byte>>)
    ensures Ahead(a, Ahead(b, rest)) == Ahead(a + b, rest)
  {
    if rest.Good? {
      assert a + (b + rest.value) == a + b + rest.value;
    }
  }

  lemma AheadNothing(rest: Scan<seq<Byte>>)
    ensures Ahead([], rest) == rest
  {
    if rest.Good? {
      assert [] + rest.value == rest.value;
    }
  }

  class Lexer {
    const source: seq<Byte>
    const words: seq<Keyword>
    var offset: nat
    var line: nat
    var column: nat
    var failed: bool

    constructor (source: seq<Byte>, words: seq<Keyword>)
      ensures this.source == source && this.words == words
      ensures offset == 0 && !failed && Positioned()
    {
      this.source := source;
      this.words := words;
      offset, line, column, failed := 0, 1, 0, false;
    }

    /** The counters agree with the source before the cursor. */
    ghost predicate Positioned()
      reads this
    {
      offset <= |source| && Position(offset, line, column) == PositionAt(source, offset)
    }

    predicate Has(count: nat)
      reads this`offset
    {
      offset + count <= |source|
    }

    /** The byte ahead of the cursor, zero past the end. */
    function PeekAt(ahead: nat): Byte
      reads this`offset
    {
      Peek(source, offset, ahead)
    }

    method AdvanceBytes(count: nat)
      requires Positioned()
      modifies `offset, `line, `column
      ensures Positioned()
      ensures offset == if old(offset) + count <= |source| then old(offset) + count else |source|
    {
      var index := 0;
      while index < count && Has(1)
        invariant index <= count && Positioned()
        invariant offset == old(offset) + index
      {
        var byte := PeekAt(0);
        PositionStep(source, offset);
        CounterStep(Lines(source[..offset]), 1);
        CounterStep(Columns(source[..offset]), 1);
        offset := offset + 1;
        if byte == NEWLINE {
          line, column := (line + 1) % WORD32, 0;
        } else if !IsContinuation(byte) {
          column := (column + 1) % WORD32;
        }
        index := index + 1;
      }
    }

    /** Skips white space. */
    method SkipSpaces()
      requires Positioned()
      modifies `offset, `line, `column
      ensures Positioned() && old(offset) <= offset && offset == SpaceEnd(source, old(offset))
    {
      hide Lines, Columns;
      while Has(1) && IsSpace(PeekAt(0))
        invariant Positioned() && old(offset) <= offset
        invariant SpaceEnd(source, old(offset)) == SpaceEnd(source, offset)
        decreases |source| - offset
      {
        AdvanceBytes(1);
      }
    }

    /** Advances to the end of a line. */
    method SkipLine()
      requires Positioned()
      modifies `offset, `line, `column
      ensures Positioned() && old(offset) <= offset && offset == LineEnd(source, old(offset))
    {
      hide Lines, Columns;
      while Has(1) && PeekAt(0) != NEWLINE
        invariant Positioned() && old(offset) <= offset
        invariant LineEnd(source, old(offset)) == LineEnd(source, offset)
        decreases |source| - offset
      {
        AdvanceBytes(1);
      }
    }

    /** Skips white space and line comments. */
    method SkipTrivia()
      requires Positioned()
      modifies `offset, `line, `column
      ensures Positioned() && offset == TriviaEnd(source, old(offset))
    {
      hide Lines, Columns;
      while true
        invariant Positioned() && TriviaEnd(source, old(offset)) == TriviaEnd(source, offset)
        decreases |source| - offset
      {
        SkipSpaces();
        if !Matches(source, offset, COMMENT) {
          return;
        }
        assert source[offset..offset + 2][0] == COMMENT[0];
        SkipLine();
      }
    }

    /** Advances over digits of a base and separators. */
    method ScanDigits(base: Base)
      requires Positioned()
      modifies `offset, `line, `column
      ensures Positioned() && offset == RunEnd(source, old(offset), base)
    {
      while Has(1) && (IsDigit(PeekAt(0), base) || PeekAt(0) == UNDERSCORE)
        invariant Positioned() && RunEnd(source, old(offset), base) == RunEnd(source, offset, base)
        decreases |source| - offset
      {
        AdvanceBytes(1);
      }
    }

    /** Advances over a fraction, if one starts here. */
    method ScanFraction() returns (float: bool)
      requires Positioned()
      modifies `offset, `line, `column
      ensures Positioned() && offset == FractionEnd(source, old(offset))
      ensures float <==> offset > old(offset)
    {
      float := Has(2) && PeekAt(0) == 0x2E && IsDecimalDigit(PeekAt(1));
      if float {
        AdvanceBytes(1);
        ScanDigits(10);
      }
    }

    /** Advances over an exponent; a letter without digits is rolled back. */
    method ScanExponent() returns (float: bool)
      requires Positioned()
      modifies `offset, `line, `column
      ensures Positioned() && offset == ExponentEnd(source, old(offset))
      ensures float <==> offset > old(offset)
    {
      float := false;
      if Has(1) && (PeekAt(0) == 0x65 || PeekAt(0) == 0x45) {
        var savedOffset, savedLine, savedColumn := offset, line, column;
        AdvanceBytes(1);
        if Has(1) && (PeekAt(0) == 0x2B || PeekAt(0) == 0x2D) {
          AdvanceBytes(1);
        }
        if Has(1) && IsDecimalDigit(PeekAt(0)) {
          float := true;
          ScanDigits(10);
        } else {
          offset, line, column := savedOffset, savedLine, savedColumn;
        }
      }
    }

    method ScanNumber(start: nat) returns (r: Scan<Token>)
      requires Positioned() && start == offset < |source| && IsDecimalDigit(source[start])
      modifies this
      ensures Positioned() && r == NumberIn(source, start)
      ensures r.Good? ==> offset == r.end && failed == old(failed)
      ensures r.Bad? ==> failed
    {
      hide Positional, WithoutSeparators, RunEnd;
      var float := false;
      if Matches(source, offset, [0x30, 0x62]) {
        AdvanceBytes(2);
        ScanDigits(2);
      } else if Matches(source, offset, [0x30, 0x78]) {
        AdvanceBytes(2);
        ScanDigits(16);
      } else {
        ScanDigits(10);
        var fraction := ScanFraction();
        var exponent := ScanExponent();
        float := fraction || exponent;
      }
      assert (offset, float) == NumberEnd(source, start);
      var spelling := source[start..offset];
      var legal := SeparatorsValid(spelling);
      if !legal {
        failed := true;
        return Bad(SyntaxError);
      }
      if float {
        return Good(Token(Float, start, offset), offset);
      }
      var integer := ParseIntegerValue(spelling);
      if integer.None? {
        failed := true;
        return Bad(SyntaxError);
      }
      return Good(Token(Number(integer.value), start, offset), offset);
    }

    lemma HexStart()
      ensures Positional([], 16) == Some(0) && PowerOf(16, 0) == 1
    {
    }

    lemma HexStep(spelled: seq<Byte>, index: nat)
      requires index < |spelled| && Positional(spelled[..index], 16).Some?
      ensures Positional(spelled[..index + 1], 16) ==
              match HexValue(spelled[index])
              case None => None
              case Some(d) => Some(Positional(spelled[..index], 16).value * 16 + d)
    {
      assert spelled[..index + 1][..index] == spelled[..index];
    }

    /** Reads a fixed number of hexadecimal digits into a 32-bit value. */
    method ParseHexEscape(digits: nat) returns (r: Option<nat>)
      requires Positioned() && digits <= 8
      modifies `offset, `line, `column
      ensures Positioned() && r == HexEscape(source, old(offset), digits)
      ensures offset == old(offset) + if r.Some? then digits else 0
    {
      hide Lines, Columns, PowerOf, Positional;
      if !Has(digits) {
        return None;
      }
      var value := 0;
      HexStart();
      ghost var spelled := source[offset..offset + digits];
      for index := 0 to digits
        invariant Has(digits) && offset == old(offset) && Positioned()
        invariant Positional(spelled[..index], 16) == Some(value)
        invariant value < PowerOf(16, index)
      {
        assert PeekAt(index) == spelled[index];
        var digit := HexValue(PeekAt(index));
        HexStep(spelled, index);
        if digit.None? {
          PositionalPrefix(spelled, 16, index + 1);
          return None;
        }
        FitsWord(value, digit.value, index);
        value := (value * 16 + digit.value) % WORD32;
      }
      assert spelled[..digits] == spelled;
      AdvanceBytes(digits);
      return Some(value);
    }

    lemma FitsWord(value: nat, digit: nat, index: nat)
      requires value < PowerOf(16, index) && digit < 16 && index < 8
      ensures value * 16 + digit < PowerOf(16, index + 1) <= WORD32
    {
      assert PowerOf(16, index + 1) == 16 * PowerOf(16, index);
      SixteensFit(index);
    }

    lemma SixteensFit(index: nat)
      requires index < 8
      ensures PowerOf(16, index + 1) <= WORD32
    {
      assert PowerOf(16, 1) == 16;
      assert PowerOf(16, 2) == 256;
      assert PowerOf(16, 3) == 4096;
      assert PowerOf(16, 4) == 65536;
      assert PowerOf(16, 5) == 1048576;
      assert PowerOf(16, 6) == 16777216;
      assert PowerOf(16, 7) == 268435456;
      assert PowerOf(16, 8) == 4294967296;
    }

    /** Decodes the escape after a backslash onto the end of the text. */
    method ScanEscape(builder: seq<Byte>) returns (r: Option<seq<Byte>>)
      requires Positioned()
      modifies this
      ensures Positioned()
      ensures EscapeIn(source, old(offset)).Bad? ==> EscapeIn(source, old(offset)) == Bad(SyntaxError) && r.None? && failed
      ensures EscapeIn(source, old(offset)).Good? ==>
                && r == Some(builder + Encode(EscapeIn(source, old(offset)).value))
                && offset == EscapeIn(source, old(offset)).end
                && failed == old(failed)
    {
      hide Positional;
      if !Has(1) {
        failed := true;
        return None;
      }
      var escape := PeekAt(0);
      AdvanceBytes(1);
      if escape == 0x6E {
        return Some(builder + [0x0A]);
      } else if escape == 0x72 {
        return Some(builder + [0x0D]);
      } else if escape == 0x74 {
        return Some(builder + [0x09]);
      } else if escape == BACKSLASH {
        return Some(builder + [BACKSLASH]);
      } else if escape == QUOTE {
        return Some(builder + [QUOTE]);
      } else if escape == 0x78 || escape == 0x75 || escape == 0x55 {
        var codepoint := ParseHexEscape(if escape == 0x78 then 2 else if escape == 0x75 then 4 else 8);
        if codepoint.None? || (escape != 0x78 && !IsScalar(codepoint.value)) {
          failed := true;
          return None;
        }
        if escape == 0x78 {
          TwoDigitsAreScalar(source, offset - 2);
        }
        return Some(builder + Encode(codepoint.value));
      } else {
        failed := true;
        return None;
      }
    }

    lemma TwoDigitsAreScalar(s: seq<Byte>, o: nat)
      ensures HexEscape(s, o, 2).Some? ==> HexEscape(s, o, 2).value < 256
    {
      if HexEscape(s, o, 2).Some? {
        var d := s[o..o + 2];
        assert d[..1][..0] == [];
        assert Positional(d[..1], 16).value < 16;
      }
    }

    /** Appends one raw character of the source to the text. */
    method AppendRawCharacter(builder: seq<Byte>) returns (r: Option<seq<Byte>>)
      requires Positioned() && Has(1)
      modifies this
      ensures Positioned()
      ensures RawIn(source, old(offset)).Bad? ==> RawIn(source, old(offset)) == Bad(InvalidUtf8) && r.None? && failed
      ensures RawIn(source, old(offset)).Good? ==>
                && r == Some(builder + Encode(RawIn(source, old(offset)).value))
                && offset == RawIn(source, old(offset)).end
                && failed == old(failed)
    {
      var byte := PeekAt(0);
      if byte >= 0x80 {
        var decoded := DecodeScalar(source[offset..]);
        if decoded.None? {
          failed := true;
          return None;
        }
        var w := decoded.value.width;
        r := Some(builder + source[offset..offset + w]);
        assert source[offset..][..w] == source[offset..offset + w];
        AdvanceBytes(w);
      } else {
        r := Some(builder + [byte]);
        AdvanceBytes(1);
      }
    }

    /** The body of a guillemet string, nested marks included. */
    method ScanGuillemetString() returns (r: Scan<seq<Byte>>)
      requires Positioned()
      modifies this
      ensures Positioned() && (r.Good? <==> GuillemetIn(source, old(offset), 1).Good?)
      ensures r.Good? ==> r == GuillemetIn(source, old(offset), 1) && offset == r.end && failed == old(failed)
      ensures r.Bad? ==> r == GuillemetIn(source, old(offset), 1) && failed
    {
      hide Encode, RawIn, Lines, Columns;
      var depth: nat := 1;
      var builder: seq<Byte> := [];
      AheadNothing(GuillemetIn(source, offset, 1));
      while Has(1)
        invariant Positioned() && 1 <= depth <= 256 && failed == old(failed)
        invariant GuillemetIn(source, old(offset), 1) == Ahead(builder, GuillemetIn(source, offset, depth))
        decreases |source| - offset
      {
        if Matches(source, offset, GUILLEMET_OPEN) {
          if depth >= 256 {
            failed := true;
            return Bad(SyntaxError);
          }
          AheadTwice(builder, GUILLEMET_OPEN, GuillemetIn(source, offset + 2, depth + 1));
          builder := builder + GUILLEMET_OPEN;
          AdvanceBytes(2);
          depth := depth + 1;
        } else if Matches(source, offset, GUILLEMET_CLOSE) {
          if depth == 1 {
            AdvanceBytes(2);
            assert builder + [] == builder;
            return Good(builder, offset);
          }
          AheadTwice(builder, GUILLEMET_CLOSE, GuillemetIn(source, offset + 2, depth - 1));
          builder := builder + GUILLEMET_CLOSE;
          AdvanceBytes(2);
          depth := depth - 1;
        } else {
          ghost var raw := RawIn(source, offset);
          var longer := AppendRawCharacter(builder);
          if longer.None? {
            return Bad(InvalidUtf8);
          }
          AheadTwice(builder, Encode(raw.value), GuillemetIn(source, raw.end, depth));
          builder := longer.value;
        }
      }
      failed := true;
      return Bad(SyntaxError);
    }

    /** The body of a quoted string. */
    method ScanQuotedString() returns (r: Scan<seq<Byte>>)
      requires Positioned()
      modifies this
      ensures Positioned() && r == QuotedIn(source, old(offset))
      ensures r.Good? ==> offset == r.end && failed == old(failed)
      ensures r.Bad? ==> failed
    {
      hide Encode, RawIn, EscapeIn, Lines, Columns;
      var builder: seq<Byte> := [];
      AheadNothing(QuotedIn(source, offset));
      while Has(1)
        invariant Positioned() && failed == old(failed)
        invariant QuotedIn(source, old(offset)) == Ahead(builder, QuotedIn(source, offset))
        decreases |source| - offset
      {
        if PeekAt(0) == QUOTE {
          AdvanceBytes(1);
          assert builder + [] == builder;
          return Good(builder, offset);
        }
        if PeekAt(0) == NEWLINE {
          failed := true;
          return Bad(SyntaxError);
        }
        ghost var piece := if PeekAt(0) == BACKSLASH then EscapeIn(source, offset + 1) else RawIn(source, offset);
        var longer: Option<seq<Byte>>;
        var escaped := PeekAt(0) == BACKSLASH;
        if escaped {
          AdvanceBytes(1);
          longer := ScanEscape(builder);
        } else {
          longer := AppendRawCharacter(builder);
        }
        if longer.None? {
          return Bad(if escaped then SyntaxError else InvalidUtf8);
        }
        AheadTwice(builder, Encode(piece.value), QuotedIn(source, piece.end));
        builder := longer.value;
      }
      failed := true;
      return Bad(SyntaxError);
    }

    /** A character literal, its opening quote already consumed. */
    method ScanCharacter() returns (r: Scan<nat>)
      requires Positioned()
      modifies this
      ensures Positioned() && r == CharacterIn(source, old(offset))
      ensures r.Good? ==> offset == r.end && failed == old(failed)
      ensures r.Bad? ==> failed
    {
      hide Decode, Encode, Positional;
      if !Has(1) {
        failed := true;
        return Bad(SyntaxError);
      }
      var codepoint: nat;
      if PeekAt(0) == BACKSLASH {
        AdvanceBytes(1);
        var escape := ScanCharacterEscape();
        if escape.None? {
          return Bad(SyntaxError);
        }
        codepoint := escape.value;
      } else {
        var decoded := DecodeScalar(source[offset..]);
        if decoded.None? {
          failed := true;
          return Bad(InvalidUtf8);
        }
        codepoint := decoded.value.scalar;
        AdvanceBytes(decoded.value.width);
      }
      if !Has(1) || PeekAt(0) != 0x27 {
        failed := true;
        return Bad(SyntaxError);
      }
      AdvanceBytes(1);
      return Good(codepoint, offset);
    }

    /** The escapes of a character literal. */
    method ScanCharacterEscape() returns (r: Option<nat>)
      requires Positioned()
      modifies this
      ensures Positioned()
      ensures r.Some? <==> CharacterEscapeIn(source, old(offset)).Good?
      ensures r.Some? ==> CharacterEscapeIn(source, old(offset)) == Good(r.value, offset) && failed == old(failed)
      ensures r.None? ==> failed
    {
      hide Positional;
      if !Has(1) {
        failed := true;
        return None;
      }
      var escape := PeekAt(0);
      AdvanceBytes(1);
      if escape == 0x6E {
        return Some(0x0A);
      } else if escape == 0x72 {
        return Some(0x0D);
      } else if escape == 0x74 {
        return Some(0x09);
      } else if escape == BACKSLASH {
        return Some(0x5C);
      } else if escape == 0x27 {
        return Some(0x27);
      } else if escape == 0x78 || escape == 0x75 || escape == 0x55 {
        var codepoint := ParseHexEscape(if escape == 0x78 then 2 else if escape == 0x75 then 4 else 8);
        if codepoint.None? || !IsScalar(codepoint.value) {
          failed := true;
          return None;
        }
        return codepoint;
      } else {
        failed := true;
        return None;
      }
    }

    /** The number after an underscore. */
    method ScanIndex(start: nat) returns (r: Scan<Token>)
      requires Positioned() && start == offset && start + 1 < |source| && IsDecimalDigit(source[start + 1])
      modifies this
      ensures Positioned() && r == IndexIn(source, start)
      ensures r.Good? ==> offset == r.end && failed == old(failed)
      ensures r.Bad? ==> failed
    {
      hide Lines, Columns, Positional;
      AdvanceBytes(1);
      var value := 0;
      NoDigits();
      assert source[start + 1..offset] == [];
      ghost var end := DigitsEnd(source, start + 1);
      while Has(1) && IsDecimalDigit(PeekAt(0))
        invariant Positioned() && start + 1 <= offset && failed == old(failed)
        invariant DigitsEnd(source, offset) == end
        invariant Positional(source[start + 1..offset], 10) == Some(value) && value <= MAX_INT64
        decreases |source| - offset
      {
        var digit := PeekAt(0) - 0x30;
        IndexStep(start + 1, value);
        if value > (MAX_INT64 - digit) / 10 {
          IndexOverflows(start + 1, end);
          failed := true;
          return Bad(SyntaxError);
        }
        value := value * 10 + digit;
        AdvanceBytes(1);
      }
      return Good(Token(Index(value), start, offset), offset);
    }

    lemma NoDigits()
      ensures Positional([], 10) == Some(0)
    {
    }

    lemma IndexStep(from: nat, value: nat)
      requires from <= offset < |source| && IsDecimalDigit(source[offset])
      requires Positional(source[from..offset], 10) == Some(value)
      ensures Positional(source[from..offset + 1], 10) == Some(value * 10 + (source[offset] - 0x30))
    {
      assert source[from..offset + 1][..offset - from] == source[from..offset];
    }

    lemma IndexOverflows(from: nat, end: nat)
      requires from <= offset < end <= |source|
      requires Positional(source[from..offset + 1], 10).Some? && Positional(source[from..offset + 1], 10).value > MAX_INT64
      ensures Positional(source[from..end], 10).Some? ==> Positional(source[from..end], 10).value > MAX_INT64
    {
      assert source[from..end][..offset + 1 - from] == source[from..offset + 1];
      PositionalOnlyGrows(source[from..end], 10, offset + 1 - from);
    }

    /** The first reserved word with the identity of the text. */
    method KeywordLookup(text: seq<Byte>) returns (r: Option<Meaning>)
      ensures r == Lookup(words, text)
    {
      hide Identity;
      for index := 0 to |words|
        invariant Lookup(words, text) == Lookup(words[index..], text)
      {
        var same := Equals(text, words[index].spelling);
        assert words[index..][1..] == words[index + 1..];
        if same {
          return Some(words[index].meaning);
        }
      }
      return None;
    }

    /** Advances over an identifier; fails at a byte that is not UTF-8. */
    method ScanIdentifier() returns (ok: bool)
      requires Positioned() && offset < |source|
      requires Decode(source[offset..]).Some? && IsIdStart(Decode(source[offset..]).value.scalar)
      modifies this
      ensures Positioned()
      ensures
        var rest := IdentifierEnd(source, old(offset) + Decode(source[old(offset)..]).value.width);
        if ok then rest == Some(offset) && failed == old(failed) else rest == None && failed
    {
      hide Decode, IsIdRest, IsIdStart, Lines, Columns;
      ghost var start, first := offset, Decode(source[offset..]).value;
      while Has(1)
        invariant Positioned() && start <= offset && failed == old(failed)
        invariant offset == start || IdentifierEnd(source, start + first.width) == IdentifierEnd(source, offset)
        decreases |source| - offset
      {
        var current := DecodeScalar(source[offset..]);
        if current.None? {
          failed := true;
          return false;
        }
        StartIsRest(current.value.scalar);
        if !IsIdRest(current.value.scalar) {
          return true;
        }
        AdvanceBytes(current.value.width);
      }
      return true;
    }

    /** An identifier, reserved word or truth value. */
    method ScanWord(start: nat) returns (r: Scan<Token>)
      requires Positioned() && start == offset < |source|
      requires Decode(source[start..]).Some? && IsIdStart(Decode(source[start..]).value.scalar)
      modifies this
      ensures Positioned() && r == WordIn(words, source, start)
      ensures r.Good? ==> offset == r.end && failed == old(failed)
      ensures r.Bad? ==> failed
    {
      hide Identity, Lookup, Decode, IsIdStart, IdentifierEnd, Lines, Columns;
      var ok := ScanIdentifier();
      if !ok {
        return Bad(InvalidUtf8);
      }
      var text := source[start..offset];
      WordHasIdentity(source, start);
      var content := HasContent(text);
      if !content {
        failed := true;
        return Bad(SyntaxError);
      }
      var keyword := KeywordLookup(text);
      match keyword {
        case None => return Good(Token(Identifier, start, offset), offset);
        case Some(Truth(b)) => return Good(Token(Boolean(b), start, offset), offset);
        case Some(Reserved(k)) => return Good(Token(Word(k), start, offset), offset);
      }
    }

    /** The first operator of the table that matches. */
    method ScanOperator(start: nat) returns (r: Option<Token>)
      requires Positioned() && start == offset
      modifies `offset, `line, `column
      ensures Positioned()
      ensures FirstOperator(source, start, 0).None? ==> r.None? && offset == start
      ensures FirstOperator(source, start, 0).Some? ==>
                var k := FirstOperator(source, start, 0).value;
                r == Some(Token(Operator(k), start, offset)) && offset == start + |Spelling(k)|
    {
      hide Spelling, Lines, Columns;
      for index := 0 to OPERATORS
        invariant Positioned() && offset == start
        invariant FirstOperator(source, start, 0) == FirstOperator(source, start, index)
      {
        if Matches(source, offset, Spelling(index)) {
          AdvanceBytes(|Spelling(index)|);
          return Some(Token(Operator(index), start, offset));
        }
      }
      return None;
    }

    /** Whatever is neither a literal, an index nor a bare underscore. */
    method ScanNameOrOperator(start: nat) returns (r: Scan<Token>)
      requires Positioned() && start == offset < |source|
      modifies this
      ensures Positioned() && r == NameOrOperator(words, source, start)
      ensures r.Good? ==> offset == r.end && failed == old(failed)
      ensures r.Bad? ==> failed
    {
      hide Decode, IsIdStart, WordIn, FirstOperator, Spelling, Lines, Columns;
      var first := DecodeScalar(source[start..]);
      if first.Some? && IsIdStart(first.value.scalar) {
        r := ScanWord(start);
        return;
      }
      var operator := ScanOperator(start);
      if operator.Some? {
        return Good(operator.value, offset);
      }
      if first.Some? {
        AdvanceBytes(1);
      }
      failed := true;
      return Bad(if first.None? then InvalidUtf8 else SyntaxError);
    }

    /** A literal that opens with a quote of some kind. */
    method ScanDelimited(start: nat) returns (r: Scan<Token>)
      requires Positioned() && start == offset < |source|
      requires Matches(source, start, GUILLEMET_OPEN) || source[start] == QUOTE || source[start] == 0x27
      modifies this
      ensures Positioned() && r == TokenAt(words, source, start)
      ensures r.Good? ==> offset == r.end && failed == old(failed)
      ensures r.Bad? ==> failed
    {
      hide GuillemetIn, QuotedIn, CharacterIn, Lines, Columns;
      if Matches(source, offset, GUILLEMET_OPEN) {
        AdvanceBytes(2);
        var text := ScanGuillemetString();
        return Mapped(start, text, bytes => Text(bytes));
      } else if PeekAt(0) == QUOTE {
        AdvanceBytes(1);
        var text := ScanQuotedString();
        return Mapped(start, text, bytes => Text(bytes));
      } else {
        AdvanceBytes(1);
        var scalar := ScanCharacter();
        return Mapped(start, scalar, c => Character(c));
      }
    }

    /** A token with the positions it starts and ends at. */
    method Next() returns (r: Option<Token>, from: Position, upTo: Position)
      requires Positioned()
      modifies this
      ensures Positioned()
      ensures old(failed) ==> r.None? && failed && offset == old(offset)
      ensures !old(failed) ==>
                match NextToken(words, source, old(offset))
                case Bad(_) => r.None? && failed
                case Good(t, end) =>
                  && r == Some(t)
                  && !failed
                  && offset == end
                  && from == PositionAt(source, t.start)
                  && upTo == PositionAt(source, t.end)
    {
      hide Lines, Columns, TriviaEnd, IndexIn, NumberIn, NameOrOperator, Decode, IsIdRest, GuillemetIn, QuotedIn,
           CharacterIn;
      from, upTo := Position(offset, line, column), Position(offset, line, column);
      if failed {
        return None, from, upTo;
      }
      SkipTrivia();
      from := Position(offset, line, column);
      var start := offset;
      var token: Scan<Token>;
      if !Has(1) {
        token := Good(Token(EndOfFile, start, start), start);
      } else if Matches(source, offset, GUILLEMET_OPEN) || PeekAt(0) == QUOTE || PeekAt(0) == 0x27 {
        token := ScanDelimited(start);
      } else if PeekAt(0) == UNDERSCORE && Has(2) && IsDecimalDigit(PeekAt(1)) {
        token := ScanIndex(start);
      } else {
        var bare := false;
        if PeekAt(0) == UNDERSCORE {
          var next := DecodeScalar(source[start + 1..]);
          bare := next.None? || !IsIdRest(next.value.scalar);
        }
        if bare {
          AdvanceBytes(1);
          token := Good(Token(Underscore, start, offset), offset);
        } else if IsDecimalDigit(PeekAt(0)) {
          token := ScanNumber(start);
        } else {
          token := ScanNameOrOperator(start);
        }
      }
      upTo := Position(offset, line, column);
      assert token == TokenAt(words, source, start);
      TokenShaped(words, source, start);
      return if token.Good? then Some(token.value) else None, from, upTo;
    }
  }
}
