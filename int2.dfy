/**
 * The integer part of the `Int2` value type: a pair of 32-bit C# `int`s with
 * componentwise arithmetic and the equality operators as they are written.
 *
 * C# `int` arithmetic is unchecked here, so `+`, unary `-` and `*` wrap
 * around modulo 2^32; `/` truncates toward zero and throws on a zero divisor.
 */
module Int2s {
  import opened Wrappers

  const Modulus: int := 0x1_0000_0000
  const MinInt32: int := -0x8000_0000
  const MaxInt32: int := 0x7FFF_FFFF

  newtype Int32 = x: int | -0x8000_0000 <= x < 0x8000_0000

  predicate InRange(v: int) {
    MinInt32 <= v <= MaxInt32
  }

  /** The value that 32-bit two's-complement arithmetic yields for the exact value `v`. */
  function Wrap(v: int): (r: Int32)
    ensures exists k :: r as int == v + k * Modulus
    ensures InRange(v) ==> r as int == v
  {
    var m := (v - MinInt32) % Modulus;
    assert r0: m + MinInt32 == v + (-((v - MinInt32) / Modulus)) * Modulus;
    (m + MinInt32) as Int32
  }

  /** Adding a multiple of 2^32 does not change the wrapped value. */
  lemma WrapShift(v: int, k: int)
    ensures Wrap(v + k * Modulus) == Wrap(v)
  {
    var a := v - MinInt32;
    var b := v + k * Modulus - MinInt32;
    assert b == a + k * Modulus;
    var qa, qb := a / Modulus, b / Modulus;
    assert a == qa * Modulus + a % Modulus;
    assert b == qb * Modulus + b % Modulus;
    ModUnique(b, qa + k, a % Modulus);
  }

  /** The remainder of Euclidean division by 2^32 is determined by any decomposition. */
  lemma ModUnique(b: int, q: int, r: int)
    requires 0 <= r < Modulus
    requires b == q * Modulus + r
    ensures b % Modulus == r
  {
    var q', r' := b / Modulus, b % Modulus;
    assert b == q' * Modulus + r';
    assert (q - q') * Modulus == r' - r;
    assert -Modulus < (q - q') * Modulus < Modulus;
  }

  /** Two exact values that agree modulo 2^32 wrap to the same `int`. */
  lemma WrapCongruent(v: int, w: int, k: int)
    requires v == w + k * Modulus
    ensures Wrap(v) == Wrap(w)
  {
    WrapShift(w, k);
  }

  /** Wrapping a value that is already wrapped changes nothing further. */
  lemma WrapOfWrapped(v: int, extra: int)
    ensures Wrap(extra + Wrap(v) as int) == Wrap(extra + v)
    ensures Wrap(-(Wrap(v) as int)) == Wrap(-v)
  {
    var k :| Wrap(v) as int == v + k * Modulus;
    WrapCongruent(extra + Wrap(v) as int, extra + v, k);
    WrapCongruent(-(Wrap(v) as int), -v, -k);
  }

  datatype Int2 = Int2(x: Int32, y: Int32)

  /** `a + b`: componentwise, wrapping; exact whenever the exact sums fit in an `int`. */
  function Add(a: Int2, b: Int2): (r: Int2)
    ensures InRange(a.x as int + b.x as int) ==> r.x as int == a.x as int + b.x as int
    ensures InRange(a.y as int + b.y as int) ==> r.y as int == a.y as int + b.y as int
  {
    Int2(Wrap(a.x as int + b.x as int), Wrap(a.y as int + b.y as int))
  }

  /** Unary `-a`: componentwise; `int.MinValue` is its own negation. */
  function Neg(a: Int2): (r: Int2)
    ensures a.x as int != MinInt32 ==> r.x as int == -(a.x as int)
    ensures a.y as int != MinInt32 ==> r.y as int == -(a.y as int)
    ensures a.x as int == MinInt32 ==> r.x == a.x
    ensures a.y as int == MinInt32 ==> r.y == a.y
  {
    Int2(Wrap(-(a.x as int)), Wrap(-(a.y as int)))
  }

  /** `a - b`, which the source defines as `a + (-b)`: the componentwise wrapped difference. */
  function Sub(a: Int2, b: Int2): (r: Int2)
    ensures r == Int2(Wrap(a.x as int - b.x as int), Wrap(a.y as int - b.y as int))
  {
    WrapOfWrapped(-(b.x as int), a.x as int);
    WrapOfWrapped(-(b.y as int), a.y as int);
    Add(a, Neg(b))
  }

  /** `v * i`: componentwise, wrapping. */
  function Scale(v: Int2, i: Int32): (r: Int2)
    ensures InRange(v.x as int * i as int) ==> r.x as int == v.x as int * i as int
    ensures InRange(v.y as int * i as int) ==> r.y as int == v.y as int * i as int
  {
    Int2(Wrap(v.x as int * i as int), Wrap(v.y as int * i as int))
  }

  /** `i * v`, which the source defines as `v * i`. */
  function ScaleLeft(i: Int32, v: Int2): (r: Int2)
    ensures r.x == Wrap(i as int * v.x as int) && r.y == Wrap(i as int * v.y as int)
  {
    Scale(v, i)
  }

  /** C#'s integer `/`: the quotient truncated toward zero. */
  function TruncDiv(a: int, d: int): (q: int)
    requires d != 0
    ensures var rem := a - q * d;
      && (if d > 0 then -d < rem < d else d < rem < -d)
      && (rem == 0 || (rem < 0 <==> a < 0))
  {
    if a >= 0 then
      (if d > 0 then a / d else -(a / -d))
    else
      (if d > 0 then -((-a) / d) else (-a) / (-d))
  }

  datatype ArithError = DivideByZero | Overflow

  /**
   * `a / d`: componentwise truncating division. A zero divisor throws;
   * `int.MinValue / -1` does not fit in an `int`. The C# language leaves
   * that case implementation-defined in an unchecked context (it may throw
   * or yield `int.MinValue`); the model takes the throwing choice of the
   * .NET runtime.
   */
  function Div(a: Int2, d: Int32): (r: Result<Int2, ArithError>)
    ensures d == 0 <==> r == Failure(DivideByZero)
    ensures r == Failure(Overflow) <==>
      d as int == -1 && (a.x as int == MinInt32 || a.y as int == MinInt32)
    ensures r.Success? ==>
      r.value.x as int == TruncDiv(a.x as int, d as int) &&
      r.value.y as int == TruncDiv(a.y as int, d as int)
  {
    if d == 0 then Failure(DivideByZero)
    else if d == -1 && (a.x as int == MinInt32 || a.y as int == MinInt32) then Failure(Overflow)
    else
      var qx, qy := TruncDiv(a.x as int, d as int), TruncDiv(a.y as int, d as int);
      QuotientInRange(a.x as int, d as int);
      QuotientInRange(a.y as int, d as int);
      Success(Int2(qx as Int32, qy as Int32))
  }

  /** A product with a factor of at least one is at least the other factor. */
  lemma {:induction false} MulAtLeast(m: nat, q: nat)
    requires m >= 1
    ensures m * q >= q
    decreases m
  {
    if m > 1 {
      MulAtLeast(m - 1, q);
      assert m * q == (m - 1) * q + q;
    }
  }

  /** Euclidean division of a natural number by a positive divisor does not increase it. */
  lemma NatDivBound(n: int, m: int)
    requires n >= 0 && m >= 1
    ensures 0 <= n / m <= n
    ensures m >= 2 ==> 2 * (n / m) <= n
  {
    var q := n / m;
    assert q >= 0;
    assert m * q <= n;
    if m >= 2 {
      MulAtLeast(m - 1, q);
      assert m * q == (m - 1) * q + q;
    } else {
      MulAtLeast(m, q);
    }
  }

  /** A truncated quotient of an `int` fits in an `int` unless it is `int.MinValue / -1`. */
  lemma QuotientInRange(a: int, d: int)
    requires InRange(a) && d != 0
    requires !(d == -1 && a == MinInt32)
    ensures InRange(TruncDiv(a, d))
  {
    if d == -1 {
      assert TruncDiv(a, d) == -a;
    } else if a >= 0 {
      NatDivBound(a, if d > 0 then d else -d);
    } else if d > 0 {
      NatDivBound(-a, d);
    } else {
      NatDivBound(-a, -d);
    }
  }

  /** Negation is an involution on 32-bit values, `int.MinValue` included. */
  lemma NegNeg(a: Int2)
    ensures Neg(Neg(a)) == a
  {
    WrapOfWrapped(-(a.x as int), 0);
    WrapOfWrapped(-(a.y as int), 0);
  }

  /** `a - a` is the zero vector, overflow or not. */
  lemma SubSelf(a: Int2)
    ensures Sub(a, a) == Int2(0, 0)
  {
  }

  /** `==` as written: it compares `lhs.x` with `rhs.x` and then `lhs.x` with `rhs.y`. */
  function Equal(lhs: Int2, rhs: Int2): (r: bool)
    ensures r ==> rhs.x == rhs.y
    ensures r ==> lhs.x == rhs.x
    ensures lhs == rhs ==> (r <==> lhs.x == lhs.y)
  {
    lhs.x == rhs.x && lhs.x == rhs.y
  }

  /** `!=` is the negation of `==`. */
  function NotEqual(lhs: Int2, rhs: Int2): (r: bool)
    ensures r <==> !(lhs.x == rhs.x && lhs.x == rhs.y)
  {
    !Equal(lhs, rhs)
  }

  /** The argument of `Equals(object)`: null, a boxed `Int2`, or a value of another type. */
  datatype Boxed = Null | BoxedInt2(value: Int2) | OtherType

  /** `self.Equals(obj)`: false on null or another type; otherwise `(Int2)obj == self`. */
  function Equals(self: Int2, obj: Boxed): (r: bool)
    ensures r ==> obj.BoxedInt2?
    ensures obj.BoxedInt2? ==> (r <==> Equal(obj.value, self))
  {
    match obj
    case BoxedInt2(other) => Equal(other, self)
    case _ => false
  }

  /** The `==` the operator evidently intends: both components are equal. */
  function EqualIntended(lhs: Int2, rhs: Int2): (r: bool)
    ensures r <==> lhs == rhs
  {
    lhs.x == rhs.x && lhs.y == rhs.y
  }

  /** As written, `v == v` holds only when the two components of `v` agree. */
  lemma EqualReflexiveOnlyOnDiagonal(v: Int2)
    ensures Equal(v, v) <==> v.x == v.y
  {
  }

  /** Witnesses of the wrong comparison: a value unequal to itself, and two different values that are `==`. */
  lemma EqualAsWrittenCounterexamples()
    ensures !Equal(Int2(0, 1), Int2(0, 1))
    ensures Equal(Int2(1, 0), Int2(1, 1)) && Int2(1, 0) != Int2(1, 1)
    ensures EqualIntended(Int2(0, 1), Int2(0, 1)) && !EqualIntended(Int2(1, 0), Int2(1, 1))
  {
  }

  /** `Equals` puts its argument on the left of `==`, so it disagrees with `==` on some pairs. */
  lemma EqualsDisagreesWithOperator()
    ensures Equals(Int2(1, 1), BoxedInt2(Int2(1, 2)))
    ensures !Equal(Int2(1, 1), Int2(1, 2))
  {
  }
}
