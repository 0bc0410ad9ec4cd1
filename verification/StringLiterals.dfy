/** What string literals denote: balanced guillemet text comes back unchanged, and escaped text decodes exactly. */
module StringLiterals {
  import opened IntegerLiterals
  import opened LexicalForms
  import opened Options
  import opened Utf8

  const OPEN_MARK: nat := 0xAB
  const CLOSE_MARK: nat := 0xBB

  // ----- guillemets -----

  /** Opening marks minus closing marks. */
  function Depth(cs: seq<nat>): int {
    if cs == [] then 0
    else Depth(cs[..|cs| - 1]) + (if cs[|cs| - 1] == OPEN_MARK then 1 else if cs[|cs| - 1] == CLOSE_MARK then -1 else 0)
  }

  /** From `depth` marks deep, no prefix closes the string or nests deeper than 256, and the end is one deep again. */
  ghost predicate Balances(cs: seq<nat>, depth: nat) {
    && depth + Depth(cs) == 1
    && forall i :: 0 <= i <= |cs| ==> 1 <= depth + Depth(cs[..i]) <= 256
  }

  /** Text whose guillemets pair up, at most 255 deep. */
  ghost predicate Balanced(cs: seq<nat>) {
    && Depth(cs) == 0
    && forall i :: 0 <= i <= |cs| ==> 0 <= Depth(cs[..i]) <= 255
  }

  lemma {:induction false} DepthAppends(cs: seq<nat>, ds: seq<nat>)
    ensures Depth(cs + ds) == Depth(cs) + Depth(ds)
  {
    if ds == [] {
      assert cs + ds == cs;
    } else {
      assert (cs + ds)[..|cs + ds| - 1] == cs + ds[..|ds| - 1];
      DepthAppends(cs, ds[..|ds| - 1]);
    }
  }

  function Turn(c: nat): int {
    if c == OPEN_MARK then 1 else if c == CLOSE_MARK then -1 else 0
  }

  lemma DepthFirst(c: nat, cs: seq<nat>)
    ensures Depth([c] + cs) == Turn(c) + Depth(cs)
  {
    DepthAppends([c], cs);
    assert [c][..0] == [];
    assert Depth([c]) == Turn(c);
  }

  /** Balance read from the front. */
  lemma BalancesFirst(c: nat, cs: seq<nat>, depth: nat)
    requires 1 <= depth <= 256
    ensures Balances([c] + cs, depth) <==> depth + Turn(c) >= 1 && depth + Turn(c) <= 256 && Balances(cs, depth + Turn(c))
  {
    DepthFirst(c, cs);
    var all := [c] + cs;
    var next := depth + Turn(c);
    forall i | 0 <= i <= |cs|
      ensures all[..i + 1] == [c] + cs[..i] && depth + Depth(all[..i + 1]) == next + Depth(cs[..i])
    {
      DepthFirst(c, cs[..i]);
      assert all[..i + 1] == [c] + cs[..i];
    }
    assert all[..0] == [] && cs[..0] == [];
    assert next == next + Depth(cs[..0]) == depth + Depth(all[..1]);
    if next >= 1 && next <= 256 && Balances(cs, next) {
      forall i | 0 <= i <= |all|
        ensures 1 <= depth + Depth(all[..i]) <= 256
      {
        if i > 0 {
          assert depth + Depth(all[..(i - 1) + 1]) == next + Depth(cs[..i - 1]);
        }
      }
    }
    if Balances(all, depth) {
      forall i | 0 <= i <= |cs|
        ensures 1 <= next + Depth(cs[..i]) <= 256
      {
        assert 1 <= depth + Depth(all[..i + 1]) <= 256;
      }
    }
  }

  /** The source shows this text and then a closing mark. */
  ghost predicate Closes(s: seq<Byte>, o: nat, text: seq<Byte>, end: nat) {
    o <= end <= |s| && s[o..end] == text + GUILLEMET_CLOSE
  }

  lemma MarksEncode()
    ensures Encode(OPEN_MARK) == GUILLEMET_OPEN && Encode(CLOSE_MARK) == GUILLEMET_CLOSE
  {
  }

  /** The character at an offset, as every branch of the guillemet scan sees it. */
  lemma FirstCharacter(s: seq<Byte>, o: nat, c: nat)
    requires o < |s| && IsScalar(c) && Matches(s, o, Encode(c))
    ensures Matches(s, o, GUILLEMET_OPEN) <==> c == OPEN_MARK
    ensures Matches(s, o, GUILLEMET_CLOSE) <==> c == CLOSE_MARK
    ensures RawIn(s, o) == Good(c, o + |Encode(c)|)
  {
    MarksEncode();
    var e := Encode(c);
    EncodeIsWellFormed(c);
    assert s[o..] == e + s[o + |e|..];
    DecodeInvertsEncode(c, s[o + |e|..]);
    assert s[o] == e[0];
    if Matches(s, o, GUILLEMET_OPEN) {
      assert s[o..] == GUILLEMET_OPEN + s[o + 2..];
      DecodeInvertsEncode(OPEN_MARK, s[o + 2..]);
    }
    if Matches(s, o, GUILLEMET_CLOSE) {
      assert s[o..] == GUILLEMET_CLOSE + s[o + 2..];
      DecodeInvertsEncode(CLOSE_MARK, s[o + 2..]);
    }
  }

  /** One step of the guillemet scan, by the character it meets. */
  lemma GuillemetStep(s: seq<Byte>, o: nat, depth: nat, c: nat)
    requires o < |s| && 1 <= depth <= 256 && IsScalar(c) && Matches(s, o, Encode(c))
    ensures GuillemetIn(s, o, depth) ==
            if c == CLOSE_MARK && depth == 1 then Good([], o + 2)
            else if c == OPEN_MARK && depth == 256 then Bad(SyntaxError)
            else Ahead(Encode(c), GuillemetIn(s, o + |Encode(c)|, depth + Turn(c)))
  {
    hide Encode, RawIn, Matches;
    MarksEncode();
    FirstCharacter(s, o, c);
  }

  /** A scan that succeeds meets a character first. */
  lemma GuillemetMeets(s: seq<Byte>, o: nat, depth: nat) returns (c: nat)
    requires o <= |s| && 1 <= depth <= 256
    ensures GuillemetIn(s, o, depth).Good? ==> o < |s| && IsScalar(c) && Matches(s, o, Encode(c))
  {
    c := 0;
    MarksEncode();
    if GuillemetIn(s, o, depth).Good? {
      hide Encode, GuillemetIn;
      if Matches(s, o, GUILLEMET_OPEN) {
        c := OPEN_MARK;
      } else if Matches(s, o, GUILLEMET_CLOSE) {
        c := CLOSE_MARK;
      } else {
        c := RawIn(s, o).value;
      }
    }
  }

  lemma FirstOf(s: seq<Byte>, o: nat, a: seq<Byte>, b: seq<Byte>, end: nat)
    requires o <= end <= |s| && s[o..end] == a + b
    ensures Matches(s, o, a) && s[o + |a|..end] == b
  {
    assert s[o..o + |a|] == s[o..end][..|a|] == a;
    assert s[o + |a|..end] == s[o..end][|a|..];
  }

  /** Text that balances comes back unchanged, up to the mark that closes it. */
  lemma {:induction false} BalancedTextReturns(s: seq<Byte>, o: nat, depth: nat, cs: seq<nat>, end: nat)
    requires 1 <= depth <= 256 && Scalars(cs) && Balances(cs, depth)
    requires Closes(s, o, EncodeAll(cs), end)
    ensures GuillemetIn(s, o, depth) == Good(EncodeAll(cs), end)
    decreases |cs|
  {
    hide Encode, GuillemetIn, Balances, Matches, Depth;
    MarksEncode();
    if cs == [] {
      FirstOf(s, o, GUILLEMET_CLOSE, [], end);
      GuillemetStep(s, o, depth, CLOSE_MARK);
      assert depth == 1 by { BalancesEmpty(depth); }
    } else {
      var c, rest := cs[0], cs[1..];
      var e := Encode(c);
      assert EncodeAll(cs) + GUILLEMET_CLOSE == e + (EncodeAll(rest) + GUILLEMET_CLOSE);
      FirstOf(s, o, e, EncodeAll(rest) + GUILLEMET_CLOSE, end);
      assert cs == [c] + rest;
      BalancesFirst(c, rest, depth);
      GuillemetStep(s, o, depth, c);
      BalancedTextReturns(s, o + |e|, depth + Turn(c), rest, end);
    }
  }

  lemma BalancesEmpty(depth: nat)
    ensures Balances([], depth) <==> depth == 1
  {
    var none: seq<nat> := [];
    assert none[..0] == none;
  }

  /** Whatever the scan returns is text that balances. */
  lemma {:induction false} ReturnedTextBalances(s: seq<Byte>, o: nat, depth: nat) returns (cs: seq<nat>)
    requires o <= |s| && 1 <= depth <= 256
    ensures
      var r := GuillemetIn(s, o, depth);
      r.Good? ==>
        && Scalars(cs)
        && Balances(cs, depth)
        && r.value == EncodeAll(cs)
        && Closes(s, o, EncodeAll(cs), r.end)
    decreases |s| - o
  {
    hide Encode, GuillemetIn, Balances, Depth;
    var r := GuillemetIn(s, o, depth);
    cs := [];
    MarksEncode();
    BalancesEmpty(depth);
    var c := GuillemetMeets(s, o, depth);
    if r.Good? {
      GuillemetStep(s, o, depth, c);
      var e := Encode(c);
      if c == CLOSE_MARK && depth == 1 {
        assert s[o..o + 2] == [] + GUILLEMET_CLOSE;
      } else {
        var rest := ReturnedTextBalances(s, o + |e|, depth + Turn(c));
        cs := [c] + rest;
        assert cs[1..] == rest;
        BalancesFirst(c, rest, depth);
        assert s[o..r.end] == e + s[o + |e|..r.end];
      }
    }
  }

  lemma BalancesFromOne(cs: seq<nat>)
    ensures Balances(cs, 1) <==> Balanced(cs)
  {
  }

  /** A guillemet literal is accepted exactly for balanced UTF-8 text nested at most 255 deep, and denotes that text. */
  lemma GuillemetExact(s: seq<Byte>, o: nat, text: seq<Byte>, end: nat)
    requires o <= |s|
    ensures
      GuillemetIn(s, o, 1) == Good(text, end) <==>
      DecodeAll(text).Some? && Balanced(DecodeAll(text).value) && Closes(s, o, text, end)
  {
    if GuillemetIn(s, o, 1) == Good(text, end) {
      var cs := ReturnedTextBalances(s, o, 1);
      DecodeAllInvertsEncodeAll(cs);
      BalancesFromOne(cs);
    }
    if DecodeAll(text).Some? && Balanced(DecodeAll(text).value) && Closes(s, o, text, end) {
      BalancesFromOne(DecodeAll(text).value);
      BalancedTextReturns(s, o, 1, DecodeAll(text).value, end);
    }
  }

  // ----- quoted strings -----

  /** One piece of a quoted string: how it is written and the character it stands for. */
  datatype Piece = Piece(spelling: seq<Byte>, scalar: nat)

  /** The spellings of a character inside quotes. */
  ghost predicate Spells(p: Piece) {
    && IsScalar(p.scalar)
    && (|| (p.scalar != QUOTE && p.scalar != BACKSLASH && p.scalar != NEWLINE && p.spelling == Encode(p.scalar))
        || (p.spelling == [BACKSLASH, 0x6E] && p.scalar == 0x0A)
        || (p.spelling == [BACKSLASH, 0x72] && p.scalar == 0x0D)
        || (p.spelling == [BACKSLASH, 0x74] && p.scalar == 0x09)
        || (p.spelling == [BACKSLASH, BACKSLASH] && p.scalar == BACKSLASH)
        || (p.spelling == [BACKSLASH, QUOTE] && p.scalar == QUOTE)
        || HexSpells(p, 0x78, 2)
        || HexSpells(p, 0x75, 4)
        || HexSpells(p, 0x55, 8))
  }

  ghost predicate HexSpells(p: Piece, letter: Byte, digits: nat) {
    && |p.spelling| == 2 + digits
    && p.spelling[..2] == [BACKSLASH, letter]
    && Positional(p.spelling[2..], 16) == Some(p.scalar)
  }

  ghost predicate AllSpell(ps: seq<Piece>) {
    forall i :: 0 <= i < |ps| ==> Spells(ps[i])
  }

  function Written(ps: seq<Piece>): seq<Byte> {
    if ps == [] then [] else ps[0].spelling + Written(ps[1..])
  }

  function ScalarsOf(ps: seq<Piece>): (cs: seq<nat>)
    ensures |cs| == |ps| && forall i :: 0 <= i < |cs| ==> cs[i] == ps[i].scalar
  {
    if ps == [] then [] else [ps[0].scalar] + ScalarsOf(ps[1..])
  }

  lemma AllSpellScalars(ps: seq<Piece>)
    requires AllSpell(ps)
    ensures Scalars(ScalarsOf(ps))
  {
    forall i | 0 <= i < |ps|
      ensures IsScalar(ScalarsOf(ps)[i])
    {
      assert Spells(ps[i]);
    }
  }

  /** What the quoted scan reads at an offset that is neither the closing quote nor a newline. */
  function PieceIn(s: seq<Byte>, o: nat): (r: Scan<nat>)
    requires o < |s|
    ensures r.Good? ==> o < r.end <= |s| && IsScalar(r.value)
  {
    if s[o] == BACKSLASH then EscapeIn(s, o + 1) else RawIn(s, o)
  }

  lemma EncodeFirst(c: nat)
    requires IsScalar(c)
    ensures c < 0x80 ==> Encode(c) == [c]
    ensures c >= 0x80 ==> Encode(c)[0] >= 0x80
  {
  }

  /** A spelled character is read back, whatever follows. */
  lemma SpelledIsRead(s: seq<Byte>, o: nat, p: Piece)
    requires Spells(p) && o < |s| && |p.spelling| > 0 && Matches(s, o, p.spelling)
    ensures s[o] != QUOTE && s[o] != NEWLINE
    ensures PieceIn(s, o) == Good(p.scalar, o + |p.spelling|)
  {
    var w := p.spelling;
    assert s[o..o + |w|] == w;
    assert s[o] == w[0];
    assert |w| > 1 ==> s[o + 1] == w[1];
    if p.scalar != QUOTE && p.scalar != BACKSLASH && p.scalar != NEWLINE && w == Encode(p.scalar) {
      EncodeFirst(p.scalar);
      FirstCharacter(s, o, p.scalar);
    } else if HexSpells(p, 0x78, 2) {
      HexIsRead(s, o, p, 0x78, 2);
    } else if HexSpells(p, 0x75, 4) {
      HexIsRead(s, o, p, 0x75, 4);
    } else if HexSpells(p, 0x55, 8) {
      HexIsRead(s, o, p, 0x55, 8);
    }
  }

  lemma HexIsRead(s: seq<Byte>, o: nat, p: Piece, letter: Byte, digits: nat)
    requires HexSpells(p, letter, digits) && o < |s| && Matches(s, o, p.spelling)
    ensures o + 2 + digits <= |s| && s[o] == BACKSLASH && s[o + 1] == letter
    ensures HexEscape(s, o + 2, digits) == Some(p.scalar)
  {
    var w := p.spelling;
    var at := s[o..o + |w|];
    assert at == w;
    assert s[o] == at[0] == w[..2][0] && s[o + 1] == at[1] == w[..2][1];
    assert s[o + 2..o + 2 + digits] == at[2..];
  }

  /** Whatever is read was spelled. */
  lemma ReadIsSpelled(s: seq<Byte>, o: nat)
    requires o < |s| && s[o] != QUOTE && s[o] != NEWLINE
    ensures
      var r := PieceIn(s, o);
      r.Good? ==> Spells(Piece(s[o..r.end], r.value))
  {
    var r := PieceIn(s, o);
    if r.Good? {
      var w := s[o..r.end];
      if s[o] != BACKSLASH {
        EncodeFirst(r.value);
      } else if r.end == o + 2 {
        assert w == [BACKSLASH, s[o + 1]];
      } else {
        var digits := r.end - o - 2;
        assert w[2..] == s[o + 2..o + 2 + digits];
        assert w[..2] == [BACKSLASH, s[o + 1]];
      }
    }
  }

  lemma SpelledSomehow(p: Piece)
    requires Spells(p)
    ensures |p.spelling| > 0
  {
  }

  /** Spelled text, closed by a quote, denotes the UTF-8 of the characters it spells. */
  lemma {:induction false} SpelledTextReturns(s: seq<Byte>, o: nat, ps: seq<Piece>, end: nat)
    requires o <= end <= |s| && AllSpell(ps)
    requires s[o..end] == Written(ps) + [QUOTE]
    ensures Scalars(ScalarsOf(ps))
    ensures QuotedIn(s, o) == Good(EncodeAll(ScalarsOf(ps)), end)
    decreases |ps|
  {
    hide EscapeIn, RawIn, Encode, Spells;
    AllSpellScalars(ps);
    if ps == [] {
      assert Written(ps) == [];
      FirstOf(s, o, [QUOTE], [], end);
      assert s[o..o + 1][0] == s[o];
    } else {
      var p := ps[0];
      assert Spells(p);
      var w := p.spelling;
      SpelledSomehow(p);
      assert s[o..end] == w + (Written(ps[1..]) + [QUOTE]);
      FirstOf(s, o, w, Written(ps[1..]) + [QUOTE], end);
      SpelledIsRead(s, o, p);
      SpelledTextReturns(s, o + |w|, ps[1..], end);
      assert ScalarsOf(ps)[1..] == ScalarsOf(ps[1..]);
    }
  }

  lemma {:induction false} ReturnedTextIsSpelled(s: seq<Byte>, o: nat) returns (ps: seq<Piece>)
    requires o <= |s|
    ensures AllSpell(ps) && Scalars(ScalarsOf(ps))
    ensures
      var r := QuotedIn(s, o);
      r.Good? ==> s[o..r.end] == Written(ps) + [QUOTE] && r.value == EncodeAll(ScalarsOf(ps))
    decreases |s| - o
  {
    hide EscapeIn, RawIn, Encode, Spells;
    var r := QuotedIn(s, o);
    ps := [];
    if r.Good? && s[o] == QUOTE {
      assert s[o..r.end] == [QUOTE];
    } else if r.Good? {
      var c := PieceIn(s, o);
      ReadIsSpelled(s, o);
      var p := Piece(s[o..c.end], c.value);
      var rest := ReturnedTextIsSpelled(s, c.end);
      ps := [p] + rest;
      assert ps[1..] == rest;
      assert s[o..r.end] == s[o..c.end] + s[c.end..r.end];
      assert ScalarsOf(ps)[1..] == ScalarsOf(rest);
    }
    AllSpellScalars(ps);
  }

  ghost predicate QuotedAs(s: seq<Byte>, o: nat, text: seq<Byte>, end: nat, ps: seq<Piece>) {
    && AllSpell(ps)
    && o <= end <= |s|
    && s[o..end] == Written(ps) + [QUOTE]
    && DecodeAll(text) == Some(ScalarsOf(ps))
  }

  /** A quoted literal is accepted exactly when its body is a sequence of spelled characters, and denotes their UTF-8. */
  lemma QuotedExact(s: seq<Byte>, o: nat, text: seq<Byte>, end: nat)
    requires o <= |s|
    ensures QuotedIn(s, o) == Good(text, end) <==> exists ps :: QuotedAs(s, o, text, end, ps)
  {
    if QuotedIn(s, o) == Good(text, end) {
      var ps := ReturnedTextIsSpelled(s, o);
      DecodeAllInvertsEncodeAll(ScalarsOf(ps));
      assert QuotedAs(s, o, text, end, ps);
    }
    if ps :| QuotedAs(s, o, text, end, ps) {
      SpelledTextReturns(s, o, ps, end);
    }
  }

  /** A printer for quoted strings. */
  function Escaped(c: nat): seq<Byte>
    requires IsScalar(c)
  {
    if c == QUOTE then [BACKSLASH, QUOTE]
    else if c == BACKSLASH then [BACKSLASH, BACKSLASH]
    else if c == NEWLINE then [BACKSLASH, 0x6E]
    else Encode(c)
  }

  function Quoted(cs: seq<nat>): seq<Byte>
    requires forall i :: 0 <= i < |cs| ==> IsScalar(cs[i])
  {
    if cs == [] then [QUOTE] else Escaped(cs[0]) + Quoted(cs[1..])
  }

  /** Any character sequence printed as a quoted literal reads back as its UTF-8. */
  lemma {:induction false} QuotedRoundTrip(cs: seq<nat>, rest: seq<Byte>)
    requires Scalars(cs)
    ensures QuotedIn(Quoted(cs) + rest, 0) == Good(EncodeAll(cs), |Quoted(cs)|)
  {
    var ps := seq(|cs|, i requires 0 <= i < |cs| => Piece(Escaped(cs[i]), cs[i]));
    assert ScalarsOf(ps) == cs;
    assert AllSpell(ps);
    WrittenIsQuoted(cs, ps);
    var s := Quoted(cs) + rest;
    assert s[0..|Quoted(cs)|] == Quoted(cs);
    SpelledTextReturns(s, 0, ps, |Quoted(cs)|);
  }

  lemma {:induction false} WrittenIsQuoted(cs: seq<nat>, ps: seq<Piece>)
    requires Scalars(cs) && |ps| == |cs|
    requires forall i :: 0 <= i < |cs| ==> ps[i] == Piece(Escaped(cs[i]), cs[i])
    ensures Written(ps) + [QUOTE] == Quoted(cs)
  {
    if cs != [] {
      WrittenIsQuoted(cs[1..], ps[1..]);
      assert Written(ps) + [QUOTE] == ps[0].spelling + (Written(ps[1..]) + [QUOTE]);
    }
  }
}
