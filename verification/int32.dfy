/**
 Java's 32-bit `int` and 8-bit `byte`, with two's-complement wrap-around.

 Values are kept as mathematical integers inside the signed range; every
 arithmetic operation that Java performs on `int` narrows its exact result
 back into that range with `Wrap`. The lemmas show that narrowing after
 every step and narrowing once at the end give the same value, which lets
 the rest of the model reason over unbounded integers.
 */
module Int32 {

  const TWO_32: int := 0x1_0000_0000

  /** A Java `int` (32-bit two's complement). */
  type JInt = x: int | -0x8000_0000 <= x < 0x8000_0000

  /** A Java `byte` (8-bit two's complement). */
  type JByte = x: int | -0x80 <= x < 0x80

  /** The largest length of a Java array (`Integer.MAX_VALUE`). */
  const MAX_ARRAY_LENGTH: int := 0x7fff_ffff

  /** Narrowing of an exact integer result to a Java `int`: the unique value
      of the signed range that is congruent to `x` modulo 2^32. */
  function Wrap(x: int): JInt
  {
    (x + 0x8000_0000) % TWO_32 - 0x8000_0000
  }

  /** Java `a * b` on `int`. */
  function Mul(a: JInt, b: JInt): JInt
  {
    Wrap(a * b)
  }

  /** Java `a + b` on `int`. */
  function Add(a: JInt, b: JInt): JInt
  {
    Wrap(a + b)
  }

  /** Java's implicit `byte` to `int` promotion. It sign-extends, so the
      signed value of the byte is kept: a byte with bit pattern 0xFF is -1
      as an `int`, not 255. */
  function Widen(b: JByte): JInt
  {
    b
  }

  /** Two integers that narrow to the same Java `int`. */
  predicate Cong(x: int, y: int)
  {
    Wrap(x) == Wrap(y)
  }

  lemma WrapOfInRange(x: JInt)
    ensures Wrap(x) == x
  {
  }

  /** Adding any multiple of 2^32 does not change the narrowed value. */
  lemma WrapShift(x: int, k: int)
    ensures Wrap(x + TWO_32 * k) == Wrap(x)
  {
    var y := x + 0x8000_0000;
    var q := y / TWO_32;
    var r := y % TWO_32;
    assert y == TWO_32 * q + r && 0 <= r < TWO_32;
    assert y + TWO_32 * k == TWO_32 * (q + k) + r;
    ModUnique(y + TWO_32 * k, q + k, r);
  }

  lemma ModUnique(a: int, q: int, r: int)
    requires 0 <= r < TWO_32
    requires a == TWO_32 * q + r
    ensures a % TWO_32 == r
  {
  }

  /** Every integer is its narrowing plus some multiple of 2^32. */
  lemma WrapDecompose(x: int) returns (k: int)
    ensures x == Wrap(x) + TWO_32 * k
  {
    k := (x + 0x8000_0000) / TWO_32;
  }

  lemma WrapAdd(a: int, b: int)
    ensures Wrap(Wrap(a) + Wrap(b)) == Wrap(a + b)
  {
    var ka := WrapDecompose(a);
    var kb := WrapDecompose(b);
    assert a + b == Wrap(a) + Wrap(b) + TWO_32 * (ka + kb);
    WrapShift(Wrap(a) + Wrap(b), ka + kb);
  }

  lemma WrapMul(a: int, b: int)
    ensures Wrap(Wrap(a) * Wrap(b)) == Wrap(a * b)
  {
    var ka := WrapDecompose(a);
    var kb := WrapDecompose(b);
    var wa, wb := Wrap(a), Wrap(b);
    calc {
      a * b;
      (wa + TWO_32 * ka) * (wb + TWO_32 * kb);
      wa * wb + TWO_32 * (ka * wb + wa * kb + TWO_32 * ka * kb);
    }
    WrapShift(wa * wb, ka * wb + wa * kb + TWO_32 * ka * kb);
  }

  /** Java `+` on two narrowed values narrows the exact sum. */
  lemma AddWrapped(a: int, b: int)
    ensures Add(Wrap(a), Wrap(b)) == Wrap(a + b)
  {
    WrapAdd(a, b);
  }

  lemma CongAdd(a: int, a': int, b: int, b': int)
    requires Cong(a, a') && Cong(b, b')
    ensures Cong(a + b, a' + b')
  {
    WrapAdd(a, b);
    WrapAdd(a', b');
  }

  lemma CongMul(a: int, a': int, b: int, b': int)
    requires Cong(a, a') && Cong(b, b')
    ensures Cong(a * b, a' * b')
  {
    WrapMul(a, b);
    WrapMul(a', b');
  }

  /** Adding the same value to both sides neither makes nor breaks a
      congruence. */
  lemma CongCancel(x: int, y: int, c: int)
    ensures Cong(x + c, y + c) <==> Cong(x, y)
  {
    if Cong(x, y) {
      CongAdd(x, y, c, c);
    }
    if Cong(x + c, y + c) {
      CongAdd(x + c, y + c, -c, -c);
      assert x + c + -c == x && y + c + -c == y;
    }
  }

  /** `CongCancel` with the two sums given by name. */
  lemma CongCancelAt(x: int, y: int, c: int, xc: int, yc: int)
    requires xc == x + c && yc == y + c
    ensures Cong(xc, yc) <==> Cong(x, y)
  {
    CongCancel(x, y, c);
  }

  /** Java `31 * h + b` on `int`, computed with a narrowing after each
      operation, is the narrowing of the exact value. */
  lemma StepIsWrapped(h: int, b: JByte)
    ensures Add(Mul(31, Wrap(h)), Widen(b)) == Wrap(31 * h + b)
  {
    WrapMul(31, h);
    WrapAdd(31 * h, b);
  }
}
