/** C integer types as ranges of `int`, the wrap-arounds between them, and the division facts the proofs share.
    Every C operation that can wrap is written with one of the conversions below. */
module MachineInts {

  type u8 = x: int | 0 <= x < 0x100
  type u16 = x: int | 0 <= x < 0x1_0000
  type u32 = x: int | 0 <= x < 0x1_0000_0000
  type u64 = x: int | 0 <= x < 0x1_0000_0000_0000_0000
  type i16 = x: int | -0x8000 <= x < 0x8000
  type i32 = x: int | -0x8000_0000 <= x < 0x8000_0000

  function U16(x: int): u16 { x % 0x1_0000 }

  function U32(x: int): u32 { x % 0x1_0000_0000 }

  function U64(x: int): u64 { x % 0x1_0000_0000_0000_0000 }

  function I16(x: int): i16 {
    var m := x % 0x1_0000;
    if m < 0x8000 then m else m - 0x1_0000
  }

  function I32(x: int): i32 {
    var m := x % 0x1_0000_0000;
    if m < 0x8000_0000 then m else m - 0x1_0000_0000
  }

  /** Division of non-negative operands; the quotient never exceeds the dividend. */
  function Quot(a: nat, b: nat): (q: nat)
    requires 0 < b
    ensures q <= a && (b <= a ==> 1 <= q)
  {
    var q := a / b;
    MulMonotone(1, b, q);
    q
  }

  function Abs(x: int): nat { if x < 0 then -x else x }

  /** C's `/` on signed operands: the quotient is truncated toward zero. */
  function DivTrunc(a: int, b: int): (q: int)
    requires b > 0
    ensures Abs(q) == Abs(a) / b && (q > 0 ==> a > 0) && (q < 0 ==> a < 0)
  {
    if a >= 0 then a / b else -(-a / b)
  }

  // Wrapping a summand before a sum or a product is the same as wrapping after it.

  lemma WrapSum64(a: int, b: int)
    ensures U64(U64(a) + b) == U64(a + b)
  {
  }

  lemma WrapDifference32(a: int, b: int)
    ensures U32(U32(a) - U32(b)) == U32(a - b)
  {
  }

  lemma NoWrap32(x: nat)
    requires x < 0x1_0000_0000
    ensures U32(x) == x
  {
  }

  lemma NoWrap64(x: nat)
    requires x < 0x1_0000_0000_0000_0000
    ensures U64(x) == x
  {
  }

  lemma WrapProduct32(a: int, k: int)
    ensures U32(U32(a) * k) == U32(a * k)
  {
    var q := a / 0x1_0000_0000;
    assert a * k == U32(a) * k + (q * k) * 0x1_0000_0000 by {
      assert a == q * 0x1_0000_0000 + U32(a);
    }
  }

  /** The quotient is the only number whose multiple brackets the dividend. */
  lemma DivIsUnique(a: int, b: int, q: int)
    requires b > 0
    ensures a / b == q <==> q * b <= a < (q + 1) * b
  {
    var d := a / b;
    assert d * b <= a < d * b + b;
    if q < d {
      MulMonotone(q + 1, d, b);
    } else if d < q {
      MulMonotone(d + 1, q, b);
    }
  }

  lemma DivBounds(a: int, b: int)
    requires b > 0
    ensures (a / b) * b <= a < (a / b) * b + b
  {
  }

  lemma MulMonotone(a: int, b: int, k: int)
    requires a <= b && 0 <= k
    ensures a * k <= b * k
  {
  }

  lemma Distribute(a: int, b: int, k: int)
    ensures (a + b) * k == a * k + b * k
  {
  }

  lemma MultipleHasNoRemainder(q: int, d: int)
    requires 0 < d
    ensures (q * d) % d == 0
  {
    DivIsUnique(q * d, d, q);
  }

  lemma DivMonotone(a: int, b: int, d: int)
    requires a <= b && 0 < d
    ensures a / d <= b / d
  {
    DivIsUnique(a, d, a / d);
    DivIsUnique(b, d, b / d);
    if b / d < a / d {
      MulMonotone(b / d + 1, a / d, d);
    }
  }

  /** Multiplying both sides by a positive number keeps the comparison. */
  lemma CompareScaled(a: int, b: int, x: int, k: int)
    requires 0 < k
    ensures a * b <= x <==> a * (b * k) <= x * k
    ensures x <= a * b <==> x * k <= a * (b * k)
  {
    var y := a * b;
    assert a * (b * k) == y * k;
    if y < x { MulMonotone(y + 1, x, k); assert (y + 1) * k == y * k + k; }
    if x < y { MulMonotone(x + 1, y, k); assert (x + 1) * k == x * k + k; }
  }

  /** Adding a multiple of the divisor shifts the quotient. */
  lemma DivShift(a: int, k: int, b: int)
    requires b > 0
    ensures (a + k * b) / b == a / b + k
  {
    DivIsUnique(a, b, a / b);
    DivIsUnique(a + k * b, b, a / b + k);
    assert (a / b + k) * b == (a / b) * b + k * b;
    assert (a / b + k + 1) * b == (a / b + 1) * b + k * b;
  }
}
