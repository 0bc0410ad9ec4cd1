/**
 The run-time effect of the emitted append: 64-bit wrap-around arithmetic, three overflow traps, growth by a
 factor, and the cost of moving elements.
 */
module VectorAppend {
  import opened Options

  const MAX64: nat := 0x1_0000_0000_0000_0000 - 1

  function Wrap64(n: nat): (r: nat)
    ensures r <= MAX64
  {
    n % (MAX64 + 1)
  }

  /** The canonical growth policy; the emitter refuses any other. */
  datatype Policy = Policy(minimum: nat, factor: nat)

  predicate Acceptable(p: Policy) {
    1 <= p.minimum <= MAX64 && 2 <= p.factor <= MAX64
  }

  /** A vector's elements, its capacity, and how many element moves its reallocations have made. */
  datatype Vector<T> = Vector(contents: seq<T>, capacity: nat, moved: nat)

  function Empty<T>(): Vector<T> {
    Vector([], 0, 0)
  }

  predicate WellSized<T>(v: Vector<T>, size: nat) {
    |v.contents| <= v.capacity && v.capacity * size <= MAX64
  }

  /** The capacity growth leads to, and whether growing traps. */
  function GrownCapacity(p: Policy, capacity: nat): nat {
    if capacity == 0 then p.minimum else capacity * p.factor
  }

  /** Exactly when an append traps: the length, the new capacity, or its byte count does not fit in 64 bits. */
  predicate Traps<T>(p: Policy, size: nat, v: Vector<T>) {
    || |v.contents| + 1 > MAX64
    || (|v.contents| == v.capacity
        && (v.capacity * p.factor > MAX64 || GrownCapacity(p, v.capacity) * size > MAX64))
  }

  function Appended<T>(p: Policy, size: nat, v: Vector<T>, x: T): Option<Vector<T>> {
    if Traps(p, size, v) then None
    else if |v.contents| == v.capacity then
      Some(Vector(v.contents + [x], GrownCapacity(p, v.capacity), v.moved + |v.contents|))
    else Some(Vector(v.contents + [x], v.capacity, v.moved))
  }

  /** Storage of a vector at run time. */
  class Storage<T(0)> {
    var data: array<T>
    var length: nat
    var capacity: nat
    ghost var moved: nat

    ghost predicate Valid(size: nat)
      reads this
    {
      length <= capacity == data.Length && capacity * size <= MAX64
    }

    ghost function Now(): Vector<T>
      requires length <= data.Length
      reads this, data
    {
      Vector(data[..length], capacity, moved)
    }

    constructor (size: nat)
      ensures Valid(size) && Now() == Empty() && fresh(data)
    {
      data := new T[0];
      length := 0;
      capacity := 0;
      moved := 0;
    }

    /** The emitted sequence: overflow test, growth if needed, element store, length store. */
    method Append(p: Policy, size: nat, x: T) returns (trapped: bool)
      requires Valid(size) && Acceptable(p) && 1 <= size <= MAX64
      modifies this, data
      ensures trapped <==> Traps(p, size, old(Now()))
      ensures !trapped ==> Valid(size) && Appended(p, size, old(Now()), x) == Some(Now())
      ensures data == old(data) || fresh(data)
    {
      CapacityFits(capacity, size);
      var required := Wrap64(length + 1);
      if required < length {
        return true;
      }
      if required > capacity {
        if capacity > MAX64 / p.factor {
          TooLarge(capacity, p.factor);
          return true;
        }
        Fitting(capacity, p.factor);
        var grown := Wrap64(capacity * p.factor);
        var newCapacity := if capacity == 0 then p.minimum else grown;
        if newCapacity > MAX64 / size {
          TooLarge(newCapacity, size);
          return true;
        }
        Fitting(newCapacity, size);
        GrowthCovers(capacity, p);
        Reallocate(newCapacity);
      }
      data[length] := x;
      length := required;
      assert data[..length] == old(data[..length]) + [x];
      trapped := false;
    }

    /** Moves the elements to storage of another capacity. */
    method Reallocate(newCapacity: nat)
      requires length <= capacity == data.Length && length <= newCapacity
      modifies this
      ensures fresh(data) && data.Length == capacity == newCapacity && length == old(length)
      ensures data[..length] == old(data[..length]) && moved == old(moved) + length
    {
      var bigger := new T[newCapacity];
      for i := 0 to length
        invariant bigger[..i] == data[..i]
        modifies bigger
      {
        bigger[i] := data[i];
      }
      data := bigger;
      capacity := newCapacity;
      moved := moved + length;
    }
  }

  // ----- arithmetic of the guards -----

  lemma CapacityFits(capacity: nat, size: nat)
    requires 1 <= size && capacity * size <= MAX64
    ensures capacity <= MAX64
  {
    assert capacity * size >= capacity;
  }

  lemma TooLarge(a: nat, b: nat)
    requires b >= 1 && a > MAX64 / b
    ensures a * b > MAX64
  {
    var q := MAX64 / b;
    assert MAX64 == q * b + MAX64 % b;
    assert a * b >= (q + 1) * b;
    assert (q + 1) * b == q * b + b;
  }

  lemma Fitting(a: nat, b: nat)
    requires b >= 1 && a <= MAX64 / b
    ensures a * b <= MAX64 && Wrap64(a * b) == a * b
  {
    var q := MAX64 / b;
    assert MAX64 == q * b + MAX64 % b;
    assert a * b <= q * b;
  }

  lemma GrowthCovers(capacity: nat, p: Policy)
    requires Acceptable(p)
    ensures GrownCapacity(p, capacity) >= capacity + 1
  {
    if capacity > 0 {
      assert capacity * p.factor >= capacity * 2;
    }
  }

  // ----- any sequence of appends -----

  /** Appends all of `xs` to an empty vector, if nothing traps. */
  function AppendAll<T>(p: Policy, size: nat, xs: seq<T>): Option<Vector<T>>
    decreases |xs|
  {
    if xs == [] then Some(Empty())
    else
      match AppendAll(p, size, xs[..|xs| - 1])
      case None => None
      case Some(v) => Appended(p, size, v, xs[|xs| - 1])
  }

  /** How capacity and moves relate along any history, and how full the vector was when it last grew. */
  ghost predicate Accounted<T>(p: Policy, v: Vector<T>) {
    if v.capacity == 0 then v.moved == 0 && v.contents == []
    else
      && v.moved * (p.factor - 1) + p.minimum == v.capacity
      && v.capacity <= |v.contents| * p.factor + p.minimum
      && (v.capacity > p.minimum ==> v.capacity < |v.contents| * p.factor)
      && v.contents != []
  }

  lemma AppendKeeps<T>(p: Policy, size: nat, v: Vector<T>, x: T)
    requires Acceptable(p) && WellSized(v, size) && Accounted(p, v) && Appended(p, size, v, x).Some?
    ensures WellSized(Appended(p, size, v, x).value, size) && Accounted(p, Appended(p, size, v, x).value)
  {
    var c, f, n := v.capacity, p.factor, |v.contents|;
    GrowthCovers(c, p);
    OneMore(n, f);
    if n == c && c > 0 {
      Moves(v.moved, c, f, p.minimum);
    }
  }

  lemma OneMore(n: nat, f: nat)
    ensures (n + 1) * f == n * f + f
  {
  }

  lemma Moves(moved: nat, c: nat, f: nat, minimum: nat)
    requires f >= 2 && moved * (f - 1) + minimum == c
    ensures (moved + c) * (f - 1) + minimum == c * f
  {
    assert (moved + c) * (f - 1) == moved * (f - 1) + c * (f - 1);
    assert c * (f - 1) == c * f - c;
  }

  /**
   Any sequence of appends that does not trap is sequence append: the contents are what was appended, within
   capacity, with a byte count that fits; and the moves of all reallocations together are fewer than two per
   element.
   */
  lemma {:induction false} AppendsRefine<T>(p: Policy, size: nat, xs: seq<T>)
    requires Acceptable(p) && AppendAll(p, size, xs).Some?
    ensures var v := AppendAll(p, size, xs).value;
            && v.contents == xs && WellSized(v, size) && Accounted(p, v)
            && (xs != [] ==> v.moved < 2 * |xs|)
    decreases |xs|
  {
    if xs != [] {
      AppendsRefine(p, size, xs[..|xs| - 1]);
      var before := AppendAll(p, size, xs[..|xs| - 1]).value;
      AppendKeeps(p, size, before, xs[|xs| - 1]);
      assert xs[..|xs| - 1] + [xs[|xs| - 1]] == xs;
      FewMoves(p, AppendAll(p, size, xs).value);
    }
  }

  lemma FewMoves<T>(p: Policy, v: Vector<T>)
    requires Acceptable(p) && Accounted(p, v) && v.contents != []
    ensures v.moved < 2 * |v.contents|
  {
    MovesBounded(v.moved, |v.contents|, v.capacity, p.minimum, p.factor - 1);
  }

  lemma MovesBounded(m: nat, n: nat, c: nat, minimum: nat, g: nat)
    requires g >= 1 && n >= 1 && minimum >= 1
    requires m * g + minimum == c
    requires c > minimum ==> c < n * (g + 1)
    ensures m < 2 * n
  {
    ScaledBelow(2 * n, m, g);
    ScaledBelow(1, g, n);
    assert 2 * n * g == n * g + n * g;
    assert n * (g + 1) == n * g + n;
  }

  lemma ScaledBelow(a: nat, b: nat, c: nat)
    ensures a <= b ==> a * c <= b * c && c * a <= c * b
  {
  }
}
