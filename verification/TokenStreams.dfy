/** Tokenizing a whole source loses nothing: trivia and lexemes, in order, are the source. */
module TokenStreams {
  import opened IntegerLiterals
  import opened LexicalForms
  import opened Options
  import opened Utf8

  /** All tokens from an offset, the end-of-file token last; nothing when the lexer refuses the source. */
  function Tokens(words: seq<Keyword>, s: seq<Byte>, o: nat): Option<seq<Token>>
    requires o <= |s|
    decreases |s| - o
  {
    match NextToken(words, s, o)
    case Bad(_) => None
    case Good(t, end) =>
      if t.kind.EndOfFile? then Some([t])
      else
        match Tokens(words, s, end)
        case None => None
        case Some(rest) => Some([t] + rest)
  }

  /** The stretch before the first token. */
  function GapBefore(s: seq<Byte>, o: nat, ts: seq<Token>): seq<Byte> {
    if ts != [] && o <= ts[0].start <= |s| then s[o..ts[0].start] else []
  }

  function Lexeme(s: seq<Byte>, t: Token): seq<Byte> {
    if t.start <= t.end <= |s| then s[t.start..t.end] else []
  }

  /** What gaps and lexemes of a token sequence spell, in order. */
  function Rebuilt(s: seq<Byte>, o: nat, ts: seq<Token>): seq<Byte>
    decreases |ts|
  {
    if ts == [] then [] else GapBefore(s, o, ts) + Lexeme(s, ts[0]) + Rebuilt(s, ts[0].end, ts[1..])
  }

  /** White space and whole comments, and nothing else. */
  ghost predicate Trivia(g: seq<Byte>)
    decreases |g|
  {
    || g == []
    || (IsSpace(g[0]) && Trivia(g[1..]))
    || (exists n: nat :: IsComment(g, n) && Trivia(g[n..]))
  }

  /** The first `n` bytes are a comment that reaches the end of its line. */
  ghost predicate IsComment(g: seq<Byte>, n: nat) {
    2 <= n <= |g| && g[..2] == COMMENT && NEWLINE !in g[..n] && (n == |g| || g[n] == NEWLINE)
  }

  lemma {:induction false} SpacesAreTrivia(s: seq<Byte>, o: nat, e: nat, end: nat)
    requires o <= e <= end <= |s|
    requires forall k :: o <= k < e ==> IsSpace(s[k])
    requires Trivia(s[e..end])
    ensures Trivia(s[o..end])
    decreases e - o
  {
    if o < e {
      SpacesAreTrivia(s, o + 1, e, end);
      assert s[o..end][1..] == s[o + 1..end];
    }
  }

  /** Only white space and comments are skipped. */
  lemma {:induction false} SkippedIsTrivia(s: seq<Byte>, o: nat)
    requires o <= |s|
    ensures Trivia(s[o..TriviaEnd(s, o)])
    decreases |s| - o
  {
    var e := SpaceEnd(s, o);
    var end := TriviaEnd(s, o);
    if Matches(s, e, COMMENT) {
      assert s[e] == COMMENT[0] && s[e + 1] == COMMENT[1] by {
        assert s[e..e + 2][0] == COMMENT[0] && s[e..e + 2][1] == COMMENT[1];
      }
      var line := LineEnd(s, e);
      SkippedIsTrivia(s, line);
      var g := s[e..end];
      LineStops(s, line);
      assert g[..2] == COMMENT;
      assert IsComment(g, line - e);
      assert g[line - e..] == s[line..end];
    } else {
      assert s[e..end] == [];
    }
    SpacesAreTrivia(s, o, e, end);
  }

  /** Skipping that starts at a newline moves past it. */
  lemma LineStops(s: seq<Byte>, o: nat)
    requires o <= |s|
    ensures o < |s| && s[o] == NEWLINE ==> TriviaEnd(s, o) > o
  {
  }

  /** Where the gap before token `k` starts: at the offset, or at the end of the token before. */
  function GapStart(o: nat, ts: seq<Token>, k: nat): nat
    requires k < |ts|
  {
    if k == 0 then o else ts[k - 1].end
  }

  /** Between the tokens, and before the first one, there is trivia only. */
  ghost predicate GapsTrivial(s: seq<Byte>, o: nat, ts: seq<Token>) {
    forall k :: 0 <= k < |ts| ==>
      GapStart(o, ts, k) <= ts[k].start <= |s| && Trivia(s[GapStart(o, ts, k)..ts[k].start])
  }

  lemma GapsExtend(s: seq<Byte>, o: nat, t: Token, rest: seq<Token>)
    requires o <= t.start <= |s| && Trivia(s[o..t.start]) && GapsTrivial(s, t.end, rest)
    ensures GapsTrivial(s, o, [t] + rest)
  {
    hide Trivia;
    var ts := [t] + rest;
    forall k | 0 <= k < |ts|
      ensures GapStart(o, ts, k) <= ts[k].start <= |s| && Trivia(s[GapStart(o, ts, k)..ts[k].start])
    {
      if k > 0 {
        assert ts[k] == rest[k - 1] && GapStart(o, ts, k) == GapStart(t.end, rest, k - 1);
      }
    }
  }

  /** Every accepted source is exactly its gaps and lexemes in order, and every gap is trivia. */
  lemma {:induction false} TokenizationLossless(words: seq<Keyword>, s: seq<Byte>, o: nat)
    requires o <= |s|
    ensures
      var r := Tokens(words, s, o);
      r.Some? ==>
        && Rebuilt(s, o, r.value) == s[o..]
        && GapsTrivial(s, o, r.value)
    decreases |s| - o
  {
    hide NextToken, TriviaEnd, Trivia;
    var r := Tokens(words, s, o);
    if r.Some? {
      var ts := r.value;
      var t := ts[0];
      SkippedIsTrivia(s, o);
      assert t.start == TriviaEnd(s, o);
      assert o <= t.start <= t.end <= |s|;
      assert s[o..] == s[o..t.start] + s[t.start..t.end] + s[t.end..];
      if t.kind.EndOfFile? {
        assert ts[1..] == [] && s[t.end..] == [];
        GapsExtend(s, o, t, []);
      } else {
        assert ts[1..] == Tokens(words, s, t.end).value;
        TokenizationLossless(words, s, t.end);
        GapsExtend(s, o, t, ts[1..]);
      }
    }
  }

  /** Well-placed tokens: in order, none but the last empty, with only trivia in between. */
  ghost predicate Placed(s: seq<Byte>, o: nat, ts: seq<Token>) {
    && |ts| > 0
    && o <= ts[0].start
    && (forall i :: 0 <= i < |ts| - 1 ==> ts[i].start < ts[i].end <= ts[i + 1].start)
    && (forall i :: 0 <= i < |ts| - 1 ==> !ts[i].kind.EndOfFile?)
    && ts[|ts| - 1] == Token(EndOfFile, |s|, |s|)
  }

  lemma PlacedExtends(s: seq<Byte>, o: nat, t: Token, rest: seq<Token>)
    requires o <= t.start < t.end && !t.kind.EndOfFile? && Placed(s, t.end, rest)
    ensures Placed(s, o, [t] + rest)
  {
    var ts := [t] + rest;
    forall i | 0 <= i < |ts| - 1
      ensures ts[i].start < ts[i].end <= ts[i + 1].start && !ts[i].kind.EndOfFile?
    {
      if i > 0 {
        assert ts[i] == rest[i - 1] && ts[i + 1] == rest[i];
      }
    }
  }

  /** Every token but the last advances, so the end of file comes within one call more than there are bytes. */
  lemma {:induction false} TokensPlaced(words: seq<Keyword>, s: seq<Byte>, o: nat)
    requires o <= |s|
    ensures
      var r := Tokens(words, s, o);
      r.Some? ==> Placed(s, o, r.value) && |r.value| <= |s| - o + 1
    decreases |s| - o
  {
    var r := Tokens(words, s, o);
    if r.Some? {
      var t := r.value[0];
      assert t.start == TriviaEnd(s, o);
      if !t.kind.EndOfFile? {
        TokensPlaced(words, s, t.end);
        PlacedExtends(s, o, t, Tokens(words, s, t.end).value);
      }
    }
  }

  /** Tokenizing can resume at any token boundary: the rest of the tokens is the tokens of the rest. */
  lemma {:induction false} TokensResume(words: seq<Keyword>, s: seq<Byte>, o: nat, i: nat)
    requires o <= |s| && Tokens(words, s, o).Some? && i < |Tokens(words, s, o).value| - 1
    ensures
      var ts := Tokens(words, s, o).value;
      ts[i].end <= |s| && Tokens(words, s, ts[i].end) == Some(ts[i + 1..])
    decreases |s| - o
  {
    var ts := Tokens(words, s, o).value;
    var t := ts[0];
    assert !t.kind.EndOfFile?;
    assert ts[1..] == Tokens(words, s, t.end).value;
    if i > 0 {
      TokensResume(words, s, t.end, i - 1);
      assert ts[1..][i..] == ts[i + 1..];
    }
  }

  // ----- printed numbers -----

  /** A byte that cannot continue a number in any base. */
  predicate EndsNumber(b: Byte) {
    !IsHexDigit(b) && b != UNDERSCORE && b != 0x2E && b != 0x78
  }

  predicate Separated(rest: seq<Byte>) {
    rest == [] || EndsNumber(rest[0])
  }

  lemma {:induction false} RunStops(s: seq<Byte>, o: nat, end: nat, base: Base)
    requires o <= end <= |s|
    requires forall k :: o <= k < end ==> IsDigit(s[k], base)
    requires end == |s| || (!IsDigit(s[end], base) && s[end] != UNDERSCORE)
    ensures RunEnd(s, o, base) == end
    decreases end - o
  {
    if o < end {
      RunStops(s, o + 1, end, base);
    }
  }

  lemma {:induction false} PrintedDigits(n: nat, base: Base)
    ensures forall k :: 0 <= k < |Printed(n, base)| ==> IsDigit(Printed(n, base)[k], base)
  {
    if n >= base {
      QuotientSmaller(n, base);
      PrintedDigits(n / base, base);
    }
    assert IsDigit(DigitByte(n % base), base);
  }

  /** A printed number in front of anything that cannot continue it ends where it was printed. */
  lemma PrintedEnds(n: nat, base: Base, rest: seq<Byte>)
    requires Separated(rest)
    ensures IsDecimalDigit(Literal(n, base)[0])
    ensures NumberEnd(Literal(n, base) + rest, 0) == (|Literal(n, base)|, false)
  {
    hide Printed;
    var digits := Printed(n, base);
    var s := Literal(n, base) + rest;
    var p := |Prefix(base)|;
    PrintedDigits(n, base);
    assert forall k :: p <= k < |Literal(n, base)| ==> s[k] == digits[k - p];
    RunStops(s, p, |Literal(n, base)|, base);
    if base == 10 {
      assert !Matches(s, 0, [0x30, 0x62]) && !Matches(s, 0, [0x30, 0x78]) by {
        if |s| >= 2 {
          assert s[0..2][1] == s[1];
        }
      }
    } else {
      assert s[0..2] == Prefix(base);
    }
  }

  /** Printing a 64-bit number in any base and scanning it back yields the token of that number. */
  lemma ScanInvertsPrint(n: nat, base: Base, rest: seq<Byte>)
    requires n <= MAX_UINT64 && Separated(rest)
    ensures IsDecimalDigit((Literal(n, base) + rest)[0])
    ensures NumberIn(Literal(n, base) + rest, 0)
            == Good(Token(Number(Payload(n)), 0, |Literal(n, base)|), |Literal(n, base)|)
  {
    hide NumberEnd, Denoted, SeparatorsLegal, Literal;
    PrintedEnds(n, base, rest);
    ReadInvertsPrint(n, base);
    var literal := Literal(n, base);
    assert (literal + rest)[0..|literal|] == literal;
  }
}
