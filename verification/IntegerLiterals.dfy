/** Integer literal spellings: separators, the value they denote, and the negative atom. */
module IntegerLiterals {
  import opened Options
  import opened Utf8

  const MAX_UINT64: nat := 0xFFFF_FFFF_FFFF_FFFF
  const MAX_INT64: nat := 0x7FFF_FFFF_FFFF_FFFF
  const TWO_TO_63: int := 0x8000_0000_0000_0000
  const TWO_TO_64: int := 0x1_0000_0000_0000_0000

  const UNDERSCORE: Byte := 0x5F

  type Base = b: nat | b == 2 || b == 10 || b == 16 witness 10

  predicate IsDecimalDigit(b: Byte) {
    0x30 <= b <= 0x39
  }

  predicate IsHexDigit(b: Byte) {
    IsDecimalDigit(b) || 0x61 <= b <= 0x66 || 0x41 <= b <= 0x46
  }

  function HexValue(b: Byte): (v: Option<nat>)
    ensures v.Some? <==> IsHexDigit(b)
    ensures v.Some? ==> v.value < 16
  {
    if 0x30 <= b <= 0x39 then Some(b - 0x30)
    else if 0x61 <= b <= 0x66 then Some(10 + (b - 0x61))
    else if 0x41 <= b <= 0x46 then Some(10 + (b - 0x41))
    else None
  }

  predicate IsDigit(b: Byte, base: Base) {
    if base == 2 then b == 0x30 || b == 0x31
    else if base == 16 then IsHexDigit(b)
    else IsDecimalDigit(b)
  }

  /** The base a spelling announces: `0b`, `0x`, or neither. */
  function BaseOf(spelling: seq<Byte>): Base {
    if |spelling| >= 2 && spelling[0] == 0x30 && spelling[1] == 0x62 then 2
    else if |spelling| >= 2 && spelling[0] == 0x30 && spelling[1] == 0x78 then 16
    else 10
  }

  /** Every separator stands between two digits of the active base. */
  predicate SeparatorsLegal(s: seq<Byte>) {
    forall i :: 0 <= i < |s| && s[i] == UNDERSCORE ==>
      0 < i < |s| - 1 && IsDigit(s[i - 1], BaseOf(s)) && IsDigit(s[i + 1], BaseOf(s))
  }

  method SeparatorsValid(spelling: seq<Byte>) returns (valid: bool)
    ensures valid <==> SeparatorsLegal(spelling)
  {
    var base: Base := 10;
    if |spelling| >= 2 && spelling[0] == 0x30 && spelling[1] == 0x62 {
      base := 2;
    } else if |spelling| >= 2 && spelling[0] == 0x30 && spelling[1] == 0x78 {
      base := 16;
    }
    for index := 0 to |spelling|
      invariant forall i :: 0 <= i < index && spelling[i] == UNDERSCORE ==>
        0 < i < |spelling| - 1 && IsDigit(spelling[i - 1], base) && IsDigit(spelling[i + 1], base)
    {
      if spelling[index] == UNDERSCORE {
        if index == 0 || index + 1 >= |spelling| || !IsDigit(spelling[index - 1], base)
           || !IsDigit(spelling[index + 1], base) {
          return false;
        }
      }
    }
    return true;
  }

  // ----- the number a digit string denotes -----

  /** The positional value of a digit string; nothing when some byte is not a digit of the base. */
  function Positional(digits: seq<Byte>, base: Base): Option<nat> {
    if digits == [] then Some(0)
    else
      var high := Positional(digits[..|digits| - 1], base);
      var low := HexValue(digits[|digits| - 1]);
      if high.None? || low.None? || low.value >= base then None
      else Some(high.value * base + low.value)
  }

  function WithoutSeparators(s: seq<Byte>): (r: seq<Byte>)
    ensures |r| <= |s|
    ensures UNDERSCORE !in r
  {
    if s == [] then []
    else
      var r := WithoutSeparators(s[..|s| - 1]);
      if s[|s| - 1] == UNDERSCORE then r else r + [s[|s| - 1]]
  }

  /** The digits after the base prefix, once separators are gone. */
  function Digits(spelling: seq<Byte>): seq<Byte> {
    var bare := WithoutSeparators(spelling);
    if BaseOf(bare) == 10 then bare else bare[2..]
  }

  /** The number a spelling of at most 255 bytes denotes, provided it fits in 64 bits. */
  function Denoted(spelling: seq<Byte>): (r: Option<nat>)
    ensures r.Some? ==> r.value <= MAX_UINT64
  {
    var bare := WithoutSeparators(spelling);
    var v := Positional(Digits(spelling), BaseOf(bare));
    if |spelling| <= 255 && Digits(spelling) != [] && v.Some? && v.value <= MAX_UINT64 then v else None
  }

  /** A literal as the token stores it: a signed 64-bit payload, and whether it is meant unsigned. */
  datatype Integer = Integer(value: int, wide: bool)

  /** The number a stored payload stands for. */
  function Magnitude(i: Integer): int {
    if i.wide then i.value + TWO_TO_64 else i.value
  }

  predicate Stored(i: Integer) {
    if i.wide then -TWO_TO_63 <= i.value < 0 else 0 <= i.value <= MAX_INT64
  }

  /** The payload that stores a number. */
  function Payload(n: nat): (i: Integer)
    requires n <= MAX_UINT64
    ensures Stored(i) && Magnitude(i) == n
  {
    if n > MAX_INT64 then Integer(n - TWO_TO_64, true) else Integer(n, false)
  }

  lemma {:induction false} PositionalPrefix(digits: seq<Byte>, base: Base, n: nat)
    requires n <= |digits| && Positional(digits[..n], base).None?
    ensures Positional(digits, base).None?
    decreases |digits|
  {
    if n < |digits| {
      assert digits[..|digits| - 1][..n] == digits[..n];
      PositionalPrefix(digits[..|digits| - 1], base, n);
    } else {
      assert digits[..n] == digits;
    }
  }

  lemma ScaledUp(h: nat, base: Base)
    ensures h <= h * base
  {
  }

  lemma {:induction false} PositionalGrows(digits: seq<Byte>, base: Base, n: nat)
    requires n <= |digits| && Positional(digits, base).Some?
    ensures Positional(digits[..n], base).Some?
    ensures Positional(digits[..n], base).value <= Positional(digits, base).value
    decreases |digits|
  {
    if n < |digits| {
      var high := digits[..|digits| - 1];
      assert high[..n] == digits[..n];
      PositionalGrows(high, base, n);
      ScaledUp(Positional(high, base).value, base);
    } else {
      assert digits[..n] == digits;
    }
  }

  lemma OverflowGuard(v: nat, d: nat, base: Base)
    requires d < base
    ensures v > (MAX_UINT64 - d) / base <==> v * base + d > MAX_UINT64
  {
  }

  /** Copies a spelling without its separators into the buffer. */
  method CopyDigits(spelling: seq<Byte>, buffer: array<Byte>) returns (output: nat)
    requires |spelling| <= buffer.Length
    modifies buffer
    ensures output <= |spelling| && buffer[..output] == WithoutSeparators(spelling)
  {
    output := 0;
    for input := 0 to |spelling|
      invariant output <= input
      invariant buffer[..output] == WithoutSeparators(spelling[..input])
    {
      assert spelling[..input + 1][..input] == spelling[..input];
      if spelling[input] != UNDERSCORE {
        buffer[output] := spelling[input];
        output := output + 1;
        assert buffer[..output] == buffer[..output - 1] + [spelling[input]];
      }
    }
    assert spelling[..|spelling|] == spelling;
  }

  /** Accumulates digits most significant first, refusing at the first one that is illegal or overflows. */
  method Accumulate(digits: seq<Byte>, base: Base) returns (r: Option<nat>)
    ensures r == (var v := Positional(digits, base); if v.Some? && v.value <= MAX_UINT64 then v else None)
  {
    var value := 0;
    for index := 0 to |digits|
      invariant Positional(digits[..index], base) == Some(value)
      invariant value <= MAX_UINT64
    {
      var character := digits[index];
      assert digits[..index + 1][..index] == digits[..index];
      var digit: nat;
      if 0x30 <= character <= 0x39 {
        digit := character - 0x30;
      } else if 0x61 <= character <= 0x66 {
        digit := character - 0x61 + 10;
      } else if 0x41 <= character <= 0x46 {
        digit := character - 0x41 + 10;
      } else {
        PositionalPrefix(digits, base, index + 1);
        return None;
      }
      if digit >= base {
        PositionalPrefix(digits, base, index + 1);
        return None;
      }
      OverflowGuard(value, digit, base);
      if value > (MAX_UINT64 - digit) / base {
        PositionalOnlyGrows(digits, base, index + 1);
        return None;
      }
      value := value * base + digit;
    }
    assert digits[..|digits|] == digits;
    return Some(value);
  }

  lemma PositionalOnlyGrows(digits: seq<Byte>, base: Base, n: nat)
    requires n <= |digits|
    ensures Positional(digits, base).Some? && Positional(digits[..n], base).Some? ==>
              Positional(digits[..n], base).value <= Positional(digits, base).value
  {
    if Positional(digits, base).Some? {
      PositionalGrows(digits, base, n);
    }
  }

  /** The value routine: copy without separators into a 256-byte buffer, then accumulate with an overflow guard. */
  method ParseIntegerValue(spelling: seq<Byte>) returns (r: Option<Integer>)
    ensures r == match Denoted(spelling) case None => None case Some(n) => Some(Payload(n))
  {
    hide Positional, WithoutSeparators;
    if |spelling| >= 256 {
      return None;
    }
    var buffer := new Byte[256](_ => 0);
    var output := CopyDigits(spelling, buffer);
    var bare := buffer[..output];
    var base: Base, first := 10, 0;
    if output >= 2 && bare[0] == 0x30 && bare[1] == 0x62 {
      base, first := 2, 2;
    } else if output >= 2 && bare[0] == 0x30 && bare[1] == 0x78 {
      base, first := 16, 2;
    }
    assert bare[0..] == bare;
    assert bare[first..] == Digits(spelling) && base == BaseOf(bare);
    if first >= output {
      return None;
    }
    var value := Accumulate(bare[first..], base);
    if value.None? {
      return None;
    }
    var n := value.value;
    return Some(Integer(if n > MAX_INT64 then n - TWO_TO_64 else n, n > MAX_INT64));
  }

  // ----- printing -----

  function DigitByte(d: nat): (b: Byte)
    requires d < 16
    ensures HexValue(b) == Some(d)
    ensures b != UNDERSCORE
  {
    if d < 10 then 0x30 + d else 0x61 + (d - 10)
  }

  lemma QuotientSmaller(n: nat, base: Base)
    requires n >= base
    ensures 0 < n / base < n && n / base * base + n % base == n
  {
    if base == 2 {
    } else if base == 10 {
    }
  }

  function Printed(n: nat, base: Base): (s: seq<Byte>)
    ensures |s| >= 1
    ensures UNDERSCORE !in s
    ensures n > 0 ==> s[0] != 0x30
  {
    if n < base then [DigitByte(n)]
    else
      QuotientSmaller(n, base);
      Printed(n / base, base) + [DigitByte(n % base)]
  }

  function Prefix(base: Base): seq<Byte> {
    if base == 2 then [0x30, 0x62] else if base == 16 then [0x30, 0x78] else []
  }

  function Literal(n: nat, base: Base): seq<Byte> {
    Prefix(base) + Printed(n, base)
  }

  lemma {:induction false} PrintedDenotes(n: nat, base: Base)
    ensures Positional(Printed(n, base), base) == Some(n)
  {
    hide HexValue, DigitByte;
    if n < base {
      PositionalNext([], n, base, 0);
      assert [] + [DigitByte(n)] == [DigitByte(n)];
    } else {
      QuotientSmaller(n, base);
      PrintedDenotes(n / base, base);
      PositionalNext(Printed(n / base, base), n % base, base, n / base);
    }
  }

  /** One more digit. */
  lemma PositionalNext(high: seq<Byte>, d: nat, base: Base, value: nat)
    requires d < base && Positional(high, base) == Some(value)
    ensures Positional(high + [DigitByte(d)], base) == Some(value * base + d)
  {
    hide HexValue, DigitByte;
    assert (high + [DigitByte(d)])[..|high|] == high;
  }

  function PowerOf(base: Base, k: nat): nat {
    if k == 0 then 1 else base * PowerOf(base, k - 1)
  }

  lemma DividesBelow(n: nat, base: Base, p: nat)
    requires n < base * p
    ensures n / base < p
  {
  }

  lemma {:induction false} PrintedLength(n: nat, base: Base, k: nat)
    requires 1 <= k && n < PowerOf(base, k)
    ensures |Printed(n, base)| <= k
  {
    DividesBelow(n, base, PowerOf(base, k - 1));
    if n >= base {
      PrintedLength(n / base, base, k - 1);
    }
  }

  lemma {:induction false} PowerCovers(base: Base, k: nat)
    ensures PowerOf(base, k) >= PowerOf(2, k) >= 1
  {
    if k > 0 {
      PowerCovers(base, k - 1);
    }
  }

  lemma PowerOfTwo64()
    ensures PowerOf(2, 64) == TWO_TO_64
  {
    PowerAdds(1, 1);
    PowerAdds(2, 2);
    PowerAdds(4, 4);
    PowerAdds(8, 8);
    PowerAdds(16, 16);
    PowerAdds(32, 32);
  }

  lemma {:induction false} PowerAdds(m: nat, n: nat)
    ensures PowerOf(2, m + n) == PowerOf(2, m) * PowerOf(2, n)
  {
    if m > 0 {
      PowerAdds(m - 1, n);
    }
  }

  lemma {:induction false} NothingToRemove(s: seq<Byte>)
    requires UNDERSCORE !in s
    ensures WithoutSeparators(s) == s
  {
    if s != [] {
      assert UNDERSCORE !in s[..|s| - 1];
      assert s[|s| - 1] in s;
      NothingToRemove(s[..|s| - 1]);
    }
  }

  lemma {:induction false} PrintedSecond(n: nat)
    ensures |Printed(n, 10)| >= 2 ==> IsDecimalDigit(Printed(n, 10)[1])
  {
    if n >= 10 {
      PrintedSecond(n / 10);
      assert IsDecimalDigit(DigitByte(n % 10));
    }
  }

  lemma PrintedFits(n: nat, base: Base)
    requires n <= MAX_UINT64
    ensures |Printed(n, base)| <= 64
  {
    PowerOfTwo64();
    PowerCovers(base, 64);
    PrintedLength(n, base, 64);
  }

  /** The prefix, and only it, announces the base. */
  lemma LiteralParts(n: nat, base: Base)
    ensures UNDERSCORE !in Literal(n, base)
    ensures BaseOf(Literal(n, base)) == base
    ensures (if base == 10 then Literal(n, base) else Literal(n, base)[2..]) == Printed(n, base)
  {
    hide Printed;
    PrintedSecond(n);
    assert base != 10 ==> Literal(n, base)[2..] == Printed(n, base);
    assert base == 10 ==> Literal(n, base) == Printed(n, base);
  }

  /** Printing any 64-bit number in any base and reading it back is the identity. */
  lemma ReadInvertsPrint(n: nat, base: Base)
    requires n <= MAX_UINT64
    ensures SeparatorsLegal(Literal(n, base))
    ensures Denoted(Literal(n, base)) == Some(n)
  {
    hide Positional, WithoutSeparators, Printed, BaseOf;
    LiteralParts(n, base);
    NothingToRemove(Literal(n, base));
    PrintedDenotes(n, base);
    PrintedFits(n, base);
  }

  /** Separators between digits never change the number. */
  lemma {:induction false} SeparatorsAreInvisible(a: seq<Byte>, b: seq<Byte>)
    requires WithoutSeparators(a) == WithoutSeparators(b) && |a| <= 255 && |b| <= 255
    ensures Denoted(a) == Denoted(b)
  {
    assert Digits(a) == Digits(b);
  }

  // ----- the negative atom -----

  /** The literal a minus directly before an integer token becomes; nothing when the atom is refused. */
  function Negated(i: Integer): Option<int> {
    if i.wide && i.value != -TWO_TO_63 then None
    else Some(if i.wide then -TWO_TO_63 else -i.value)
  }

  /** A minus atom is accepted exactly for magnitudes up to 2^63, and then denotes the negated number. */
  lemma NegativeAtomExact(n: nat)
    requires n <= MAX_UINT64
    ensures Negated(Payload(n)).Some? <==> n <= TWO_TO_63
    ensures n <= TWO_TO_63 ==> Negated(Payload(n)) == Some(-(n as int))
  {
  }
}
