/**
 Integer instructions of the target, as the LLVM Language Reference defines them on bit patterns, and the
 proof that the guarded sequences the emitter builds from them compute the source operators exactly.
 */
module MachineIntegers {
  import opened Integers
  import opened Options

  datatype BinaryOp = IAdd | ISub | IMul | SDiv | UDiv | SRem | URem | Shl | AShr | LShr | IAnd | IOr | IXor

  datatype CastOp = SExt | ZExt | Trunc

  datatype Predicate = EQ | NE | SLT | SLE | SGE | SGT | ULT | ULE | UGE | UGT

  function Signed(p: nat, n: nat): int
    requires n >= 1
  {
    if p >= Pow2(n - 1) then p - Pow2(n) else p
  }

  /** The result of an instruction on two `n`-bit patterns; `None` where its behaviour is undefined. */
  function BinaryResult(op: BinaryOp, n: nat, a: nat, b: nat): (r: Option<nat>)
    requires n >= 1
    ensures r.Some? && a < Pow2(n) && b < Pow2(n) ==> r.value < Pow2(n)
  {
    match op
    case IAdd => Some((a + b) % Pow2(n))
    case ISub => Some((a - b) % Pow2(n))
    case IMul => Some((a * b) % Pow2(n))
    case SDiv =>
      if Signed(b, n) == 0 || (Signed(a, n) == 0 - Pow2(n - 1) && Signed(b, n) == -1) then None
      else Some(TruncatedQuotient(Signed(a, n), Signed(b, n)) % Pow2(n))
    case SRem =>
      if Signed(b, n) == 0 || (Signed(a, n) == 0 - Pow2(n - 1) && Signed(b, n) == -1) then None
      else Some(TruncatedRemainder(Signed(a, n), Signed(b, n)) % Pow2(n))
    case UDiv => if b == 0 then None else Some((a / b) % Pow2(n))
    case URem => if b == 0 then None else Some((a % b) % Pow2(n))
    case Shl => if b >= n then None else Some((a * Pow2(b)) % Pow2(n))
    case AShr => if b >= n then None else Some((Signed(a, n) / Pow2(b)) % Pow2(n))
    case LShr => if b >= n then None else Some((a / Pow2(b)) % Pow2(n))
    case IAnd => Some(Bitwise(BitAnd, n, a, b))
    case IOr => Some(Bitwise(BitOr, n, a, b))
    case IXor => Some(Bitwise(BitXor, n, a, b))
  }

  function CastResult(op: CastOp, from: nat, to: nat, a: nat): (r: nat)
    requires from >= 1
    ensures r < Pow2(to)
  {
    match op
    case SExt => Signed(a, from) % Pow2(to)
    case ZExt => a % Pow2(to)
    case Trunc => a % Pow2(to)
  }

  predicate CompareResult(p: Predicate, n: nat, a: nat, b: nat)
    requires n >= 1
  {
    match p
    case EQ => a == b
    case NE => a != b
    case SLT => Signed(a, n) < Signed(b, n)
    case SLE => Signed(a, n) <= Signed(b, n)
    case SGE => Signed(a, n) >= Signed(b, n)
    case SGT => Signed(a, n) > Signed(b, n)
    case ULT => a < b
    case ULE => a <= b
    case UGE => a >= b
    case UGT => a > b
  }

  // ----- the choices the emitter makes -----

  /** The width checked arithmetic is computed at. */
  function WideBits(bits: Width): (w: nat)
    ensures w == 2 * bits
  {
    if bits < 64 then bits * 2 else 128
  }

  function Extension(t: IntType): CastOp {
    if t.signed then SExt else ZExt
  }

  function WideOp(op: ArithOp): BinaryOp {
    match op
    case Add => IAdd
    case Subtract => ISub
    case _ => IMul
  }

  function Widened(t: IntType, a: nat): nat {
    CastResult(Extension(t), t.bits, WideBits(t.bits), a)
  }

  /** The pattern checked arithmetic produces at double width. */
  function WideResult(op: ArithOp, t: IntType, a: nat, b: nat): nat {
    BinaryResult(WideOp(op), WideBits(t.bits), Widened(t, a), Widened(t, b)).value
  }

  function NarrowResult(op: ArithOp, t: IntType, a: nat, b: nat): (r: nat)
    ensures r < Pow2(t.bits)
  {
    CastResult(Trunc, WideBits(t.bits), t.bits, WideResult(op, t, a, b))
  }

  /** The overflow bit: the wide result differs from its own narrowing, widened again. */
  predicate Overflows(op: ArithOp, t: IntType, a: nat, b: nat) {
    WideResult(op, t, a, b) != Widened(t, NarrowResult(op, t, a, b))
  }

  function QuotientOp(op: ArithOp, t: IntType): BinaryOp {
    if op == Divide then (if t.signed then SDiv else UDiv) else if t.signed then SRem else URem
  }

  function ShiftOp(op: ArithOp, t: IntType): BinaryOp {
    if op == ShiftLeft then Shl else if t.signed then AShr else LShr
  }

  function BitOp(op: ArithOp): BinaryOp {
    match op
    case BitAnd => IAnd
    case BitOr => IOr
    case _ => IXor
  }

  function ComparePredicate(op: CompareOp, t: IntType): Predicate {
    match op
    case Equal => EQ
    case NotEqual => NE
    case Less => if t.signed then SLT else ULT
    case LessOrEqual => if t.signed then SLE else ULE
    case GreaterOrEqual => if t.signed then SGE else UGE
    case Greater => if t.signed then SGT else UGT
  }

  // ----- modular arithmetic -----

  lemma ModShift(v: int, k: int, m: nat)
    requires m > 0
    ensures (v + k * m) % m == v % m
  {
    ModUnique(v + k * m, m, v % m, v / m + k);
  }

  /** Reducing at a wide modulus first does not change the residue at a divisor of it. */
  lemma ModNested(v: int, m: nat, n: nat)
    requires m > 0 && n > 0
    ensures (v % (m * n)) % m == v % m
  {
    var q := v / (m * n);
    assert v == q * (m * n) + v % (m * n);
    assert v % (m * n) == v + (-q * n) * m;
    ModShift(v, -q * n, m);
  }

  lemma ModDistinct(u: int, v: int, m: nat)
    requires m > 0 && u != v && u - v < m && v - u < m
    ensures u % m != v % m
  {
    if u % m == v % m {
      assert u - v == (u / m - v / m) * m;
      ScaledApart(u / m - v / m, m);
    }
  }

  lemma ModMultiply(u: int, v: int, m: nat)
    requires m > 0
    ensures ((u % m) * (v % m)) % m == (u * v) % m
  {
    var p, q := u / m, v / m;
    assert u * v == (u % m) * (v % m) + (p * q * m + p * (v % m) + (u % m) * q) * m by {
      assert u == p * m + u % m && v == q * m + v % m;
      ProductExpands(p * m, u % m, q * m, v % m);
      assert (p * m) * (q * m) == (p * q * m) * m;
      assert (p * m) * (v % m) == (p * (v % m)) * m;
      assert (u % m) * (q * m) == ((u % m) * q) * m;
    }
    ModShift((u % m) * (v % m), p * q * m + p * (v % m) + (u % m) * q, m);
  }

  lemma ProductExpands(a: int, b: int, c: int, d: int)
    ensures (a + b) * (c + d) == a * c + a * d + b * c + b * d
  {
  }

  lemma Distributes(p: int, q: int, m: int)
    ensures (p + q) * m == p * m + q * m
    ensures (p - q) * m == p * m - q * m
  {
  }

  lemma ModAdd(u: int, v: int, m: nat)
    requires m > 0
    ensures (u % m + v % m) % m == (u + v) % m
  {
    var p, q, r, s := u / m, v / m, u % m, v % m;
    assert u == p * m + r && v == q * m + s;
    Distributes(p, q, m);
    assert u + v == r + s + (p + q) * m;
    ModShift(r + s, p + q, m);
  }

  lemma ModSubtract(u: int, v: int, m: nat)
    requires m > 0
    ensures (u % m - v % m) % m == (u - v) % m
  {
    var p, q, r, s := u / m, v / m, u % m, v % m;
    assert u == p * m + r && v == q * m + s;
    Distributes(p, q, m);
    assert u - v == r - s + (p - q) * m;
    ModShift(r - s, p - q, m);
  }

  // ----- exactness -----

  function Exact(op: ArithOp, x: int, y: int): int {
    match op
    case Add => x + y
    case Subtract => x - y
    case _ => x * y
  }

  lemma WidenedIsPattern(t: IntType, a: nat)
    requires a < Pow2(t.bits)
    ensures Widened(t, a) == Encode(Meaning(a, t), WideBits(t.bits))
  {
  }

  lemma ProductGrows(a: int, b: int, c: int)
    requires a <= b && 0 <= c
    ensures a * c <= b * c
  {
  }

  lemma ProductBound(x: int, y: int, h: int)
    requires -h <= x <= h && -h <= y <= h
    ensures -(h * h) <= x * y <= h * h
  {
    var u, v := if x >= 0 then x else -x, if y >= 0 then y else -y;
    ProductGrows(u, h, v);
    ProductGrows(v, h, h);
    assert u * v <= h * v && h * v == v * h && v * h <= h * h;
    assert 0 <= u * v;
    assert x * y == u * v || x * y == -(u * v);
  }

  lemma UnsignedProductBound(x: int, y: int, m: int)
    requires 0 <= x < m && 0 <= y < m
    ensures 0 <= x * y < m * m
  {
    ProductGrows(x, m, y);
    ProductGrows(y, m - 1, m);
    assert x * y <= m * y && m * y == y * m && y * m <= (m - 1) * m;
    assert (m - 1) * m == m * m - m;
    assert 0 <= x * y;
  }

  lemma WideIsSquare(bits: Width)
    ensures Pow2(WideBits(bits)) == Pow2(bits) * Pow2(bits)
    ensures Pow2(WideBits(bits)) >= 2 * Pow2(bits)
  {
    Pow2Adds(bits, bits);
    ProductGrows(2, Pow2(bits), Pow2(bits));
  }

  /** The exact result stays close enough to the type that no two candidates share a wide pattern. */
  lemma ExactIsNear(op: ArithOp, t: IntType, x: int, y: int, n: int)
    requires op in {Add, Subtract, Multiply}
    requires InRange(x, t) && InRange(y, t) && InRange(n, t)
    ensures n - Exact(op, x, y) < Pow2(WideBits(t.bits))
    ensures Exact(op, x, y) - n < Pow2(WideBits(t.bits))
  {
    var m, h := Pow2(t.bits), Pow2(t.bits - 1);
    WideIsSquare(t.bits);
    assert m == 2 * h;
    assert m * m == 4 * (h * h);
    ProductGrows(1, h, h);
    if op == Multiply {
      if t.signed {
        ProductBound(x, y, h);
      } else {
        UnsignedProductBound(x, y, m);
      }
    }
  }

  /** Adding, subtracting and multiplying patterns gives the pattern of the exact result. */
  lemma OperationOnPatterns(op: ArithOp, n: nat, x: int, y: int)
    requires n >= 1 && op in {Add, Subtract, Multiply}
    ensures BinaryResult(WideOp(op), n, Encode(x, n), Encode(y, n)) == Some(Encode(Exact(op, x, y), n))
  {
    ModAdd(x, y, Pow2(n));
    ModSubtract(x, y, Pow2(n));
    ModMultiply(x, y, Pow2(n));
  }

  lemma WideResultIsPattern(op: ArithOp, t: IntType, a: nat, b: nat)
    requires op in {Add, Subtract, Multiply}
    requires a < Pow2(t.bits) && b < Pow2(t.bits)
    ensures WideResult(op, t, a, b) == Encode(Exact(op, Meaning(a, t), Meaning(b, t)), WideBits(t.bits))
  {
    WidenedIsPattern(t, a);
    WidenedIsPattern(t, b);
    OperationOnPatterns(op, WideBits(t.bits), Meaning(a, t), Meaning(b, t));
  }

  /**
   Checked add, subtract and multiply: the overflow bit is set exactly when the mathematical result does
   not fit, and otherwise the truncated pattern denotes it. Negation is subtraction from zero.
   */
  lemma CheckedArithmeticExact(op: ArithOp, t: IntType, a: nat, b: nat)
    requires op in {Add, Subtract, Multiply}
    requires a < Pow2(t.bits) && b < Pow2(t.bits)
    ensures Overflows(op, t, a, b) <==> SourceArith(op, t, Meaning(a, t), Meaning(b, t)) == Overflow
    ensures !Overflows(op, t, a, b) ==>
              SourceArith(op, t, Meaning(a, t), Meaning(b, t)) == Fits(Meaning(NarrowResult(op, t, a, b), t))
  {
    var x, y := Meaning(a, t), Meaning(b, t);
    var r := Exact(op, x, y);
    var m, w := Pow2(t.bits), WideBits(t.bits);
    WideResultIsPattern(op, t, a, b);
    Pow2Adds(t.bits, t.bits);
    ModNested(r, m, m);
    var n := NarrowResult(op, t, a, b);
    assert n == Encode(r, t.bits);
    WidenedIsPattern(t, n);
    assert SourceArith(op, t, x, y) == Fit(r, t);
    if InRange(r, t) {
      MeaningOfEncode(r, t);
    } else {
      ExactIsNear(op, t, x, y, Meaning(n, t));
      ModDistinct(Meaning(n, t), r, Pow2(w));
    }
  }

  /** The two guards in front of a division: a zero divisor, and the signed minimum divided by minus one. */
  predicate DivisionTraps(t: IntType, a: nat, b: nat) {
    b == 0 || (t.signed && a == Pow2(t.bits - 1) && b == Pow2(t.bits) - 1)
  }

  lemma QuotientMagnitude(x: int, y: int)
    requires y != 0
    ensures x >= 0 ==> -x <= TruncatedQuotient(x, y) <= x
    ensures x < 0 ==> x <= TruncatedQuotient(x, y) <= -x
    ensures x < 0 && y != -1 ==> TruncatedQuotient(x, y) < -x
    ensures x >= 0 && y > 0 ==> TruncatedQuotient(x, y) >= 0
  {
    var p, q := if x >= 0 then x else -x, if y >= 0 then y else -y;
    assert 0 <= p / q <= p by { DividedBy(p, q); }
    if x < 0 && q >= 2 {
      DividedBy(p, q);
    }
  }

  lemma TimesAtLeast(d: nat, q: nat, k: nat)
    requires q >= k
    ensures d * q >= d * k
  {
    assert d * q - d * k == d * (q - k);
  }

  lemma DividedBy(p: nat, q: nat)
    requires q >= 1
    ensures 0 <= p / q <= p
    ensures q >= 2 && p >= 1 ==> p / q < p
  {
    var d := p / q;
    assert d * q <= p;
    TimesAtLeast(d, q, 1);
    if q >= 2 && p >= 1 {
      TimesAtLeast(d, q, 2);
    }
  }

  lemma RemainderMagnitude(x: int, y: int)
    requires y != 0
    ensures x >= 0 ==> 0 <= TruncatedRemainder(x, y) <= x
    ensures x < 0 ==> x <= TruncatedRemainder(x, y) <= 0
  {
    var p: nat, q: nat := if x >= 0 then x else -x, if y >= 0 then y else -y;
    RemainderParts(p, q);
    var d := p / q;
    assert y * TruncatedQuotient(x, y) == if x >= 0 then q * d else -(q * d) by {
      SignedProducts(q, d);
    }
  }

  lemma SignedProducts(q: int, d: int)
    ensures -q * d == -(q * d) && q * -d == -(q * d) && -q * -d == q * d
  {
  }

  lemma RemainderParts(p: nat, q: nat)
    requires q >= 1
    ensures p == q * (p / q) + p % q
    ensures 0 <= p % q <= p
  {
    var d := p / q;
    assert p == d * q + p % q;
    assert d * q == q * d;
    assert q * d >= 0;
  }

  /** The only quotient that does not fit is the signed minimum divided by minus one. */
  lemma QuotientInRange(t: IntType, x: int, y: int)
    requires InRange(x, t) && InRange(y, t) && y != 0
    ensures InRange(TruncatedQuotient(x, y), t) <==> !(t.signed && x == Min(t) && y == -1)
  {
    QuotientMagnitude(x, y);
  }

  /** Division and remainder trap exactly on a zero divisor or the minimum by minus one, and are otherwise exact. */
  lemma DivisionExact(op: ArithOp, t: IntType, a: nat, b: nat)
    requires op in {Divide, Modulo}
    requires a < Pow2(t.bits) && b < Pow2(t.bits)
    ensures DivisionTraps(t, a, b) <==> SourceArith(op, t, Meaning(a, t), Meaning(b, t)) == Overflow
    ensures !DivisionTraps(t, a, b) ==>
              var r := BinaryResult(QuotientOp(op, t), t.bits, a, b);
              r.Some? && SourceArith(op, t, Meaning(a, t), Meaning(b, t)) == Fits(Meaning(r.value, t))
  {
    hide TruncatedQuotient, TruncatedRemainder, Encode, BinaryResult, Pow2, InRange, Meaning;
    var x, y := Meaning(a, t), Meaning(b, t);
    TrapsWhenMeaningDoes(t, a, b);
    if b != 0 {
      QuotientInRange(t, x, y);
      if !DivisionTraps(t, a, b) {
        QuotientResult(op, t, a, b);
        var z := if op == Divide then TruncatedQuotient(x, y) else TruncatedRemainder(x, y);
        RemainderInRange(t, x, y);
        MeaningOfEncode(z, t);
      }
    }
  }

  /** The guards, read on patterns, are the guards on the numbers. */
  lemma TrapsWhenMeaningDoes(t: IntType, a: nat, b: nat)
    requires a < Pow2(t.bits) && b < Pow2(t.bits)
    ensures b == 0 <==> Meaning(b, t) == 0
    ensures DivisionTraps(t, a, b) <==> b == 0 || (t.signed && Meaning(a, t) == Min(t) && Meaning(b, t) == -1)
  {
    assert Pow2(t.bits) == 2 * Pow2(t.bits - 1);
  }

  /** The instruction on patterns computes the pattern of the number. */
  lemma QuotientResult(op: ArithOp, t: IntType, a: nat, b: nat)
    requires op in {Divide, Modulo}
    requires a < Pow2(t.bits) && b < Pow2(t.bits) && !DivisionTraps(t, a, b)
    ensures Meaning(b, t) != 0
    ensures
      var x, y := Meaning(a, t), Meaning(b, t);
      BinaryResult(QuotientOp(op, t), t.bits, a, b)
      == Some(Encode(if op == Divide then TruncatedQuotient(x, y) else TruncatedRemainder(x, y), t.bits))
  {
    hide TruncatedQuotient, TruncatedRemainder, Pow2;
    TrapsWhenMeaningDoes(t, a, b);
    if !t.signed {
      UnsignedQuotient(a, b);
    }
  }

  lemma UnsignedQuotient(a: nat, b: nat)
    requires b > 0
    ensures TruncatedQuotient(a, b) == a / b && TruncatedRemainder(a, b) == a % b
  {
    RemainderParts(a, b);
  }

  lemma RemainderInRange(t: IntType, x: int, y: int)
    requires InRange(x, t) && y != 0
    ensures InRange(TruncatedRemainder(x, y), t)
  {
    hide TruncatedRemainder, Pow2;
    RemainderMagnitude(x, y);
  }

  /** The guard in front of a shift: the count, read as unsigned, is at least the width. */
  predicate ShiftTraps(t: IntType, b: nat) {
    b >= t.bits
  }

  lemma ShiftRightInRange(x: int, y: nat, t: IntType)
    requires InRange(x, t)
    ensures InRange(x / Pow2(y), t)
  {
    FloorBetween(x, Pow2(y));
  }

  lemma FloorBetween(x: int, p: int)
    requires p >= 1
    ensures x >= 0 ==> 0 <= x / p <= x
    ensures x < 0 ==> x <= x / p <= -1
  {
    var d, r := x / p, x % p;
    assert x == d * p + r;
    ScaledApart(d, p);
    if x >= 0 {
      ProductGrows(1, p, d);
      assert p * d == d * p;
    } else {
      ProductGrows(1, p, -d - 1);
      Distributes(-d, 1, p);
      SignedProducts(d, p);
    }
  }

  lemma ModScaled(u: int, k: nat, m: nat)
    requires m > 0
    ensures ((u % m) * k) % m == (u * k) % m
  {
    var q := u / m;
    assert u * k == (u % m) * k + (q * k) * m by {
      assert u == q * m + u % m;
      assert (q * m + u % m) * k == q * m * k + (u % m) * k;
      assert q * m * k == (q * k) * m;
    }
    ModShift((u % m) * k, q * k, m);
  }

  /** Shifts trap exactly when the count is not below the width, and are otherwise exact. */
  lemma ShiftExact(op: ArithOp, t: IntType, a: nat, b: nat)
    requires op in {ShiftLeft, ShiftRight}
    requires a < Pow2(t.bits) && b < Pow2(t.bits)
    ensures ShiftTraps(t, b) <==> SourceArith(op, t, Meaning(a, t), Meaning(b, t)) == Overflow
    ensures !ShiftTraps(t, b) ==>
              var r := BinaryResult(ShiftOp(op, t), t.bits, a, b);
              r.Some? && SourceArith(op, t, Meaning(a, t), Meaning(b, t)) == Fits(Meaning(r.value, t))
  {
    var x, y := Meaning(a, t), Meaning(b, t);
    Pow2Exceeds(t.bits - 1);
    assert Pow2(t.bits) == 2 * Pow2(t.bits - 1);
    assert 0 <= y < t.bits <==> b < t.bits;
    if b < t.bits {
      assert y == b;
      EncodeOfMeaning(a, t);
      if op == ShiftLeft {
        ModScaled(x, Pow2(b), Pow2(t.bits));
        assert Encode(x * Pow2(b), t.bits) == (a * Pow2(b)) % Pow2(t.bits);
      } else {
        ShiftRightInRange(x, b, t);
        MeaningOfEncode(x / Pow2(b), t);
      }
    }
  }

  lemma BitwiseExact(op: ArithOp, t: IntType, a: nat, b: nat)
    requires op in {BitAnd, BitOr, BitXor}
    requires a < Pow2(t.bits) && b < Pow2(t.bits)
    ensures SourceArith(op, t, Meaning(a, t), Meaning(b, t)) ==
            Fits(Meaning(BinaryResult(BitOp(op), t.bits, a, b).value, t))
  {
    EncodeOfMeaning(a, t);
    EncodeOfMeaning(b, t);
  }

  /** Bitwise not is exclusive-or with all ones, which subtracts from the largest pattern. */
  lemma BitNotExact(t: IntType, a: nat)
    requires a < Pow2(t.bits)
    ensures BinaryResult(IXor, t.bits, a, Pow2(t.bits) - 1) == Some(Pow2(t.bits) - 1 - a)
    ensures Meaning(Pow2(t.bits) - 1 - a, t) == if t.signed then -Meaning(a, t) - 1 else Max(t) - Meaning(a, t)
  {
    XorOnes(t.bits, a);
    assert Pow2(t.bits) == 2 * Pow2(t.bits - 1);
  }

  /** Every comparison instruction decides the comparison of the denoted numbers. */
  lemma CompareExact(op: CompareOp, t: IntType, a: nat, b: nat)
    requires a < Pow2(t.bits) && b < Pow2(t.bits)
    ensures CompareResult(ComparePredicate(op, t), t.bits, a, b) <==>
            SourceCompare(op, Meaning(a, t), Meaning(b, t))
  {
    MeaningInjective(a, b, t);
  }

  /** The cast chosen for a conversion between integer types, if one is needed. */
  function ConversionCast(from: IntType, to: IntType): Option<CastOp> {
    if from.bits < to.bits then Some(Extension(from))
    else if from.bits > to.bits then Some(Trunc)
    else None
  }

  /** A conversion reduces the denoted number into the target type, for every pair of widths and signs. */
  lemma ConversionExact(from: IntType, to: IntType, a: nat)
    requires a < Pow2(from.bits)
    ensures Encode(Meaning(a, from), to.bits) ==
            match ConversionCast(from, to)
            case None => a
            case Some(op) => CastResult(op, from.bits, to.bits, a)
  {
    EncodeOfMeaning(a, from);
    if from.bits > to.bits {
      Pow2Adds(to.bits, from.bits - to.bits);
      ModNested(Meaning(a, from), Pow2(to.bits), Pow2(from.bits - to.bits));
    }
  }
}
