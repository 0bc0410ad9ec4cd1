/** Fixed-width integers: the bit patterns the emitted instructions work on, and the numbers they denote. */
module Integers {

  /** A machine integer type; the emitter accepts widths up to 64. */
  type Width = n: nat | 1 <= n <= 64 witness 8

  datatype IntType = IntType(bits: Width, signed: bool)

  function Pow2(n: nat): (p: nat)
    ensures p >= 1
    ensures n >= 1 ==> p >= 2
  {
    if n == 0 then 1 else 2 * Pow2(n - 1)
  }

  lemma DoubledTimes(p: nat, q: nat)
    ensures 2 * p * q == 2 * (p * q)
  {
  }

  lemma {:induction false} Pow2Adds(m: nat, n: nat)
    ensures Pow2(m + n) == Pow2(m) * Pow2(n)
  {
    if m > 0 {
      Pow2Adds(m - 1, n);
      DoubledTimes(Pow2(m - 1), Pow2(n));
    }
  }

  lemma {:induction false} Pow2Exceeds(n: nat)
    ensures Pow2(n) > n
  {
    if n > 0 {
      Pow2Exceeds(n - 1);
    }
  }

  lemma {:induction false} Pow2Monotone(m: nat, n: nat)
    requires m <= n
    ensures Pow2(m) <= Pow2(n)
  {
    if m < n {
      Pow2Monotone(m, n - 1);
    }
  }

  // ----- the numbers a type denotes -----

  function Min(t: IntType): int {
    if t.signed then 0 - Pow2(t.bits - 1) else 0
  }

  function Max(t: IntType): int {
    if t.signed then Pow2(t.bits - 1) - 1 else Pow2(t.bits) - 1
  }

  predicate InRange(v: int, t: IntType) {
    Min(t) <= v <= Max(t)
  }

  /** The `bits`-wide pattern of a number: two's complement, that is, the residue modulo 2^bits. */
  function Encode(v: int, bits: nat): (p: nat)
    ensures p < Pow2(bits)
  {
    v % Pow2(bits)
  }

  /** The number a pattern denotes when read at type `t`. */
  function Meaning(p: nat, t: IntType): (v: int)
    requires p < Pow2(t.bits)
    ensures InRange(v, t)
  {
    if t.signed && p >= Pow2(t.bits - 1) then p - Pow2(t.bits) else p
  }

  lemma ScaledApart(a: int, m: int)
    requires m > 0
    ensures a >= 1 ==> a * m >= m
    ensures a <= -1 ==> a * m <= 0 - m
  {
  }

  lemma ModUnique(v: int, m: nat, r: nat, k: int)
    requires 0 <= r < m
    requires v == k * m + r
    ensures v % m == r
  {
    var q := v / m;
    assert (k - q) * m == v % m - r;
    ScaledApart(k - q, m);
  }

  lemma MeaningOfEncode(v: int, t: IntType)
    requires InRange(v, t)
    ensures Meaning(Encode(v, t.bits), t) == v
  {
    var m := Pow2(t.bits);
    assert m == 2 * Pow2(t.bits - 1);
    if v >= 0 {
      ModUnique(v, m, v, 0);
    } else {
      ModUnique(v, m, v + m, -1);
    }
  }

  lemma EncodeOfMeaning(p: nat, t: IntType)
    requires p < Pow2(t.bits)
    ensures Encode(Meaning(p, t), t.bits) == p
  {
    var m := Pow2(t.bits);
    if t.signed && p >= Pow2(t.bits - 1) {
      ModUnique(p - m, m, p, -1);
    } else {
      ModUnique(p, m, p, 0);
    }
  }

  /** Patterns agree exactly when the numbers do: equality of patterns is equality of meanings. */
  lemma MeaningInjective(p: nat, q: nat, t: IntType)
    requires p < Pow2(t.bits) && q < Pow2(t.bits)
    ensures Meaning(p, t) == Meaning(q, t) <==> p == q
  {
    EncodeOfMeaning(p, t);
    EncodeOfMeaning(q, t);
  }

  // ----- what the source operators mean -----

  datatype ArithOp = Add | Subtract | Multiply | Divide | Modulo | ShiftLeft | ShiftRight | BitAnd | BitOr | BitXor

  datatype CompareOp = Equal | NotEqual | Less | LessOrEqual | GreaterOrEqual | Greater

  datatype Checked = Fits(v: int) | Overflow

  /** Division truncating toward zero. */
  function TruncatedQuotient(x: int, y: int): int
    requires y != 0
  {
    if x >= 0 then (if y > 0 then x / y else -(x / -y))
    else (if y > 0 then -(-x / y) else -x / -y)
  }

  function TruncatedRemainder(x: int, y: int): int
    requires y != 0
  {
    x - y * TruncatedQuotient(x, y)
  }

  /** The number obtained by reducing `v` into the type. */
  function Wrapped(v: int, t: IntType): (w: int)
    ensures InRange(w, t)
  {
    Meaning(Encode(v, t.bits), t)
  }

  /**
   A source operator on numbers: add, subtract and multiply give the mathematical result or trap;
   division and remainder trap on a zero divisor and on the one quotient that does not fit; a shift
   traps unless the count lies in [0, width).
   */
  function SourceArith(op: ArithOp, t: IntType, x: int, y: int): Checked
    requires InRange(x, t) && InRange(y, t)
  {
    match op
    case Add => Fit(x + y, t)
    case Subtract => Fit(x - y, t)
    case Multiply => Fit(x * y, t)
    case Divide => if y == 0 then Overflow else Fit(TruncatedQuotient(x, y), t)
    case Modulo =>
      if y == 0 || !InRange(TruncatedQuotient(x, y), t) then Overflow else Fits(TruncatedRemainder(x, y))
    case ShiftLeft => if 0 <= y < t.bits then Fits(Wrapped(x * Pow2(y), t)) else Overflow
    case ShiftRight => if 0 <= y < t.bits then Fits(x / Pow2(y)) else Overflow
    case BitAnd => Fits(Meaning(Bitwise(op, t.bits, Encode(x, t.bits), Encode(y, t.bits)), t))
    case BitOr => Fits(Meaning(Bitwise(op, t.bits, Encode(x, t.bits), Encode(y, t.bits)), t))
    case BitXor => Fits(Meaning(Bitwise(op, t.bits, Encode(x, t.bits), Encode(y, t.bits)), t))
  }

  function Fit(v: int, t: IntType): Checked {
    if InRange(v, t) then Fits(v) else Overflow
  }

  predicate SourceCompare(op: CompareOp, x: int, y: int) {
    match op
    case Equal => x == y
    case NotEqual => x != y
    case Less => x < y
    case LessOrEqual => x <= y
    case GreaterOrEqual => x >= y
    case Greater => x > y
  }

  /** Digit-wise combination of two patterns. */
  function Bitwise(op: ArithOp, n: nat, a: nat, b: nat): (r: nat)
    ensures r < Pow2(n)
  {
    if n == 0 then 0 else
    var x, y := a % 2 == 1, b % 2 == 1;
    var bit := match op
               case BitAnd => x && y
               case BitOr => x || y
               case _ => x != y;
    2 * Bitwise(op, n - 1, a / 2, b / 2) + if bit then 1 else 0
  }

  lemma {:induction false} XorOnes(n: nat, a: nat)
    requires a < Pow2(n)
    ensures Bitwise(BitXor, n, a, Pow2(n) - 1) == Pow2(n) - 1 - a
  {
    if n > 0 {
      var ones := Pow2(n) - 1;
      assert ones % 2 == 1 && ones / 2 == Pow2(n - 1) - 1;
      XorOnes(n - 1, a / 2);
    }
  }
}
